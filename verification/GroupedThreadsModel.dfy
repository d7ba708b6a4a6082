/** The grouped threads of the client, kept in the order of their displayed threads (historygroupedthreadsmodel.cpp). */
module GroupedThreadsModel {
  import opened Permutations
  import opened Threads
  import opened HistoryModel
  import opened Conversations

  datatype ThreadGroup = ThreadGroup(displayedThread: Thread, threads: seq<Thread>)

  function Displays(groups: seq<ThreadGroup>): (r: seq<Thread>)
    ensures |r| == |groups|
  {
    seq(|groups|, i requires 0 <= i < |groups| => groups[i].displayedThread)
  }

  ghost predicate InOrder(before: (Thread, Thread) -> bool, groups: seq<ThreadGroup>) {
    Sorted(before, Displays(groups))
  }

  /** result is the other groups, in their order, with g put at its lower bound. */
  ghost predicate Placed(before: (Thread, Thread) -> bool, others: seq<ThreadGroup>, g: ThreadGroup,
                         result: seq<ThreadGroup>) {
    exists p: nat :: p <= |others|
      && IsPosition(before, Displays(others), g.displayedThread, p) && result == Insert(others, p, g)
  }

  lemma DisplaysInsert(groups: seq<ThreadGroup>, p: nat, g: ThreadGroup)
    requires p <= |groups|
    ensures Displays(Insert(groups, p, g)) == Insert(Displays(groups), p, g.displayedThread)
  {
  }

  lemma DisplaysRemoveAt(groups: seq<ThreadGroup>, p: nat)
    requires p < |groups|
    ensures Displays(RemoveAt(groups, p)) == RemoveAt(Displays(groups), p)
  {
  }

  lemma PlacedInOrder(before: (Thread, Thread) -> bool, others: seq<ThreadGroup>, g: ThreadGroup,
                      result: seq<ThreadGroup>)
    requires StrictWeakOrder(before) && InOrder(before, others) && Placed(before, others, g, result)
    ensures InOrder(before, result)
  {
    var p: nat :| p <= |others|
      && IsPosition(before, Displays(others), g.displayedThread, p) && result == Insert(others, p, g);
    InsertSorted(before, Displays(others), g.displayedThread, p);
    DisplaysInsert(others, p, g);
  }

  /** The member that goes first; of equals, the first in the list. */
  function First(before: (Thread, Thread) -> bool, threads: seq<Thread>): (d: Thread)
    requires threads != []
    ensures d in threads
  {
    var n := |threads| - 1;
    if n == 0 then threads[0]
    else
      var d := First(before, threads[..n]);
      if before(threads[n], d) then threads[n] else d
  }

  lemma {:induction false} FirstIsFirst(before: (Thread, Thread) -> bool, threads: seq<Thread>, u: Thread)
    requires StrictWeakOrder(before) && u in threads
    ensures !before(u, First(before, threads))
  {
    var n := |threads| - 1;
    if n > 0 {
      var d := First(before, threads[..n]);
      if u in threads[..n] {
        FirstIsFirst(before, threads[..n], u);
        assert before(threads[n], d) && before(u, threads[n]) ==> before(u, d);
      } else {
        assert u == threads[n];
      }
    }
  }

  /** Of threads that tie it is the earliest: every thread before it in the list goes after it. */
  lemma {:induction false} FirstOfTies(before: (Thread, Thread) -> bool, threads: seq<Thread>) returns (i: nat)
    requires StrictWeakOrder(before) && threads != []
    ensures i < |threads| && threads[i] == First(before, threads)
    ensures forall j :: 0 <= j < i ==> before(threads[i], threads[j])
    ensures forall j :: i < j < |threads| ==> !before(threads[j], threads[i])
  {
    var n := |threads| - 1;
    i := 0;
    if n > 0 {
      var k := FirstOfTies(before, threads[..n]);
      i := if before(threads[n], threads[k]) then n else k;
      forall j | 0 <= j < n && i == n ensures before(threads[n], threads[j]) {
        if j > k { NotAfterTransitive(before, threads[n], threads[k], threads[j]); }
      }
    }
  }

  /**
   * The heart of the reordering. The list is searched while it still shows the old thread at pos; the
   * answer is one too high exactly when the old thread counts as before the new one. Staying put for
   * pos and pos + 1, and otherwise moving with the minus-one correction, is the same as taking the
   * group out and inserting it at its lower bound.
   */
  lemma MoveIsReinsert(before: (Thread, Thread) -> bool, groups: seq<ThreadGroup>, pos: nat, newPos: nat,
                       g: ThreadGroup)
    requires StrictWeakOrder(before) && InOrder(before, groups) && pos < |groups|
    requires IsPosition(before, Displays(groups), g.displayedThread, newPos)
    ensures var updated := groups[pos := g];
            var to := if newPos > pos then newPos - 1 else newPos;
            var moved := if newPos != pos && newPos != pos + 1 then Move(updated, pos, to)
                         else updated;
            Placed(before, RemoveAt(groups, pos), g, moved)
  {
    var others := RemoveAt(groups, pos);
    var p: nat := if newPos > pos then newPos - 1 else newPos;
    PositionWithout(before, Displays(groups), pos, g.displayedThread, newPos);
    DisplaysRemoveAt(groups, pos);
    var updated := groups[pos := g];
    assert RemoveAt(updated, pos) == others;
    if newPos == pos || newPos == pos + 1 { assert updated == Insert(others, p, g); }
  }

  class GroupedThreads {
    /** lessThan in the direction of the sort order */
    const before: (Thread, Thread) -> bool
    var mGroups: seq<ThreadGroup>

    /** In order, each group showing one of its members, and no thread in two groups. */
    ghost predicate Valid()
      reads this
    {
      StrictWeakOrder(before) && InOrder(before, mGroups) && Apart(mGroups)
    }

    /** What placing a group relies on: no two groups show the same thread. */
    ghost predicate Ready()
      reads this
    {
      StrictWeakOrder(before) && InOrder(before, mGroups) && DisplaysDiffer(mGroups)
    }

    constructor (before: (Thread, Thread) -> bool)
      requires StrictWeakOrder(before)
      ensures Valid() && mGroups == [] && this.before == before
    {
      this.before := before;
      mGroups := [];
    }

    method FindDisplayed(threads: seq<Thread>) returns (displayedThread: Thread)
      requires threads != []
      ensures displayedThread == First(before, threads)
    {
      displayedThread := threads[0];
      assert threads[..1] == [threads[0]];
      for i := 1 to |threads|
        invariant displayedThread == First(before, threads[..i])
      {
        var other := threads[i];
        assert threads[..i + 1][..i] == threads[..i];
        if before(other, displayedThread) {
          displayedThread := other;
        }
      }
      assert threads[..|threads|] == threads;
    }

    /** QList::indexOf; groups are equal when they show the same thread. */
    method IndexOf(group: ThreadGroup) returns (pos: int)
      ensures pos == -1 ==>
                forall i :: 0 <= i < |mGroups| ==> !SameThread(mGroups[i].displayedThread, group.displayedThread)
      ensures pos != -1 ==> 0 <= pos < |mGroups| && SameThread(mGroups[pos].displayedThread, group.displayedThread)
      ensures pos != -1 ==> forall i :: 0 <= i < pos ==> !SameThread(mGroups[i].displayedThread, group.displayedThread)
    {
      for i := 0 to |mGroups|
        invariant forall j :: 0 <= j < i ==> !SameThread(mGroups[j].displayedThread, group.displayedThread)
      {
        if SameThread(mGroups[i].displayedThread, group.displayedThread) {
          return i;
        }
      }
      return -1;
    }

    /**
     * updateDisplayedThread for the group at index at, whose member list may just have changed: show its first
     * thread and move it where the order wants it. The group moved is the first that shows the same thread.
     */
    method UpdateDisplayedThread(at: nat)
      requires at < |mGroups| && mGroups[at].threads != []
      modifies this
      ensures multiset(mGroups) == multiset(old(mGroups)[at := Showing(before, old(mGroups)[at].threads)])
      ensures old(Ready()) ==>
                Placed(before, RemoveAt(old(mGroups), at), Showing(before, old(mGroups)[at].threads), mGroups)
    {
      var group := mGroups[at];
      var pos := IndexOf(group);
      assert pos != -1;
      var displayedThread := FindDisplayed(group.threads);
      // the list still shows the old thread while it is searched
      var newPos, _ := PositionForItem(before, Displays(mGroups), displayedThread);
      ghost var groups := mGroups;
      group := group.(displayedThread := displayedThread);
      mGroups := mGroups[at := group];
      if newPos != pos && newPos != pos + 1 {
        var to := if newPos > pos then newPos - 1 else newPos;
        MovePermutes(mGroups, pos, to);
        mGroups := Move(mGroups, pos, to);
      }
      if StrictWeakOrder(before) && InOrder(before, groups) && DisplaysDiffer(groups) {
        assert pos == at;
        MoveIsReinsert(before, groups, at, newPos, group);
      }
    }

    /** existingPositionForEntry, grouping by participants: the first group listing one of the entry's threads. */
    method ExistingPositionForEntry(entry: seq<Thread>) returns (pos: int)
      ensures -1 <= pos
      ensures pos == -1 ==> NoneShares(mGroups, entry)
      ensures pos != -1 ==> FirstSharing(mGroups, entry, pos)
    {
      for i := 0 to |mGroups|
        invariant forall j :: 0 <= j < i ==> !Shares(mGroups[j].threads, entry)
      {
        var group := mGroups[i];
        for n := 0 to |group.threads|
          invariant forall m :: 0 <= m < n ==> !Lists(entry, group.threads[m])
        {
          if Lists(entry, group.threads[n]) {
            assert group.threads[n] in group.threads;
            return i;
          }
        }
      }
      return -1;
    }

    /** restoreParticipants: members that came without participants keep the ones they had. */
    static method RestoreParticipants(oldThreads: seq<Thread>, newThreads: seq<Thread>) returns (updated: seq<Thread>)
      ensures updated == Restored(oldThreads, newThreads)
    {
      updated := newThreads;
      for i := 0 to |updated|
        invariant |updated| == |newThreads|
        invariant forall j :: 0 <= j < i ==> updated[j] == RestoredThread(oldThreads, newThreads[j])
        invariant forall j :: i <= j < |updated| ==> updated[j] == newThreads[j]
      {
        updated := updated[i := RestoredThread(oldThreads, updated[i])];
      }
    }

    /** processThreadGrouping; answer is what the server says about the thread's conversation now. */
    method ProcessThreadGrouping(thread: Thread, answer: Answer)
      requires answer.Grouped? ==> answer.threads != []
      modifies this
      ensures answer.Unknown? ==> TakenOut(before, old(mGroups), thread, mGroups)
      ensures answer.Grouped? ==> PutIn(before, old(mGroups), answer.thread, answer.threads, mGroups)
      ensures old(Ready()) ==>
                && InOrder(before, mGroups)
                && (answer.Unknown? ==> RemovedFrom(before, old(mGroups), thread, mGroups))
                && (answer.Grouped? ==> MergedInto(before, old(mGroups), answer.thread, answer.threads, mGroups))
      ensures old(Valid()) && (answer.Grouped? ==> Lists(answer.threads, answer.thread)) ==>
                (Valid() <==> answer.Unknown? || OneShares(old(mGroups), answer.threads))
    {
      ghost var groups := mGroups;
      if Apart(groups) { ApartDisplaysDiffer(groups); }
      if answer.Unknown? {
        RemoveThreadFromGroup(thread);
        return;
      }
      var pos := ExistingPositionForEntry(answer.threads);
      if pos < 0 {
        InsertGroup(ThreadGroup(answer.thread, answer.threads));
      } else {
        OnlyFirst(mGroups, answer.threads, pos);
        var threads := RestoreParticipants(mGroups[pos].threads, answer.threads);
        SetThreads(pos, threads);
      }
      if Apart(groups) && Lists(answer.threads, answer.thread)
         && MergedInto(before, groups, answer.thread, answer.threads, mGroups) {
        MergeKeepsApartExactly(before, groups, answer.thread, answer.threads, mGroups);
      }
    }

    method RemoveThreadFromGroup(thread: Thread)
      modifies this
      ensures TakenOut(before, old(mGroups), thread, mGroups)
      ensures old(Ready()) ==> InOrder(before, mGroups) && RemovedFrom(before, old(mGroups), thread, mGroups)
      ensures old(Valid()) ==> Valid() && NoneShares(mGroups, [thread])
    {
      ghost var groups := mGroups;
      if Apart(groups) { ApartDisplaysDiffer(groups); }
      var pos := ExistingPositionForEntry([thread]);
      if pos < 0 {
        return;
      }
      OnlyFirst(mGroups, [thread], pos);
      var threads := Without(mGroups[pos].threads, thread);
      if threads == [] {
        RemoveGroup(pos);
      } else {
        SetThreads(pos, threads);
      }
      if Apart(groups) && RemovedFrom(before, groups, thread, mGroups) {
        RemovalKeepsApart(before, groups, thread, mGroups);
      }
    }

    /** removeGroup for the group at index at, whose members are gone: the first group showing the same thread goes. */
    method RemoveGroup(at: nat)
      requires at < |mGroups|
      modifies this
      ensures GroupTakenOut(old(mGroups), at, mGroups)
      ensures old(Ready()) ==> InOrder(before, mGroups) && mGroups == RemoveAt(old(mGroups), at)
    {
      ghost var groups := mGroups;
      mGroups := mGroups[at := mGroups[at].(threads := [])];
      var pos := IndexOf(mGroups[at]);
      assert pos != -1;
      assert forall i :: 0 <= i < |groups| ==> mGroups[i].displayedThread == groups[i].displayedThread;
      if InOrder(before, groups) { RemoveInOrder(before, groups, at); }
      mGroups := RemoveAt(mGroups, pos);
    }

    method InsertGroup(group: ThreadGroup)
      modifies this
      ensures multiset(mGroups) == multiset(old(mGroups) + [group])
      ensures old(Ready()) ==> InOrder(before, mGroups) && Placed(before, old(mGroups), group, mGroups)
    {
      ghost var groups := mGroups;
      var newPos, _ := PositionForItem(before, Displays(mGroups), group.displayedThread);
      InsertElements(mGroups, newPos, group);
      mGroups := Insert(mGroups, newPos, group);
      if StrictWeakOrder(before) && InOrder(before, groups) {
        assert Placed(before, groups, group, mGroups);
        PlacedInOrder(before, groups, group, mGroups);
      }
    }

    /** A group gets a new member list and is shown and placed accordingly. */
    method SetThreads(at: nat, threads: seq<Thread>)
      requires at < |mGroups| && threads != []
      modifies this
      ensures multiset(mGroups) == multiset(old(mGroups)[at := Showing(before, threads)])
      ensures old(Ready()) ==>
                && InOrder(before, mGroups)
                && Placed(before, RemoveAt(old(mGroups), at), Showing(before, threads), mGroups)
    {
      ghost var groups := mGroups;
      mGroups := mGroups[at := mGroups[at].(threads := threads)];
      assert Displays(mGroups) == Displays(groups);
      assert RemoveAt(mGroups, at) == RemoveAt(groups, at);
      assert DisplaysDiffer(groups) ==> DisplaysDiffer(mGroups);
      assert mGroups[at := Showing(before, threads)] == groups[at := Showing(before, threads)];
      UpdateDisplayedThread(at);
      if StrictWeakOrder(before) && InOrder(before, groups) && DisplaysDiffer(groups) {
        RemoveInOrder(before, groups, at);
        PlacedInOrder(before, RemoveAt(groups, at), Showing(before, threads), mGroups);
      }
    }
  }

  /** A group with these members that shows the first of them. */
  function Showing(before: (Thread, Thread) -> bool, threads: seq<Thread>): ThreadGroup
    requires threads != []
  {
    ThreadGroup(First(before, threads), threads)
  }

  ghost predicate DisplaysDiffer(groups: seq<ThreadGroup>) {
    forall i, j :: 0 <= i < j < |groups| ==> !SameThread(groups[i].displayedThread, groups[j].displayedThread)
  }

  lemma RemoveInOrder(before: (Thread, Thread) -> bool, groups: seq<ThreadGroup>, at: nat)
    requires InOrder(before, groups) && at < |groups|
    ensures InOrder(before, RemoveAt(groups, at))
  {
    DisplaysRemoveAt(groups, at);
    RemoveSorted(before, Displays(groups), at);
  }

  // ---------------------------------------------------------------- what the two slots do

  ghost predicate Shares(threads: seq<Thread>, entry: seq<Thread>) {
    exists t :: t in threads && Lists(entry, t)
  }

  function RestoredThread(oldThreads: seq<Thread>, t: Thread): Thread {
    if t.participants != [] then t
    else if oldThreads == [] then t
    else if SameThread(oldThreads[0], t) then t.(participants := t.participants + oldThreads[0].participants)
    else RestoredThread(oldThreads[1..], t)
  }

  function Restored(oldThreads: seq<Thread>, newThreads: seq<Thread>): seq<Thread> {
    seq(|newThreads|, i requires 0 <= i < |newThreads| => RestoredThread(oldThreads, newThreads[i]))
  }

  ghost predicate FirstSharing(groups: seq<ThreadGroup>, entry: seq<Thread>, pos: nat) {
    && pos < |groups| && Shares(groups[pos].threads, entry)
    && forall i :: 0 <= i < pos ==> !Shares(groups[i].threads, entry)
  }

  lemma OnlyFirst(groups: seq<ThreadGroup>, entry: seq<Thread>, pos: nat)
    requires FirstSharing(groups, entry, pos)
    ensures !NoneShares(groups, entry)
    ensures forall q: nat :: FirstSharing(groups, entry, q) ==> q == pos
  {
  }

  ghost predicate NoneShares(groups: seq<ThreadGroup>, entry: seq<Thread>) {
    forall i :: 0 <= i < |groups| ==> !Shares(groups[i].threads, entry)
  }

  /** The server's conversation replaces the first group that shares a thread with it, or becomes a new group. */
  ghost predicate MergedInto(before: (Thread, Thread) -> bool, groups: seq<ThreadGroup>, t: Thread,
                             threads: seq<Thread>,
                             result: seq<ThreadGroup>)
    requires threads != []
  {
    && (NoneShares(groups, threads) ==> Placed(before, groups, ThreadGroup(t, threads), result))
    && (forall pos: nat :: FirstSharing(groups, threads, pos) ==>
          var members := Restored(groups[pos].threads, threads);
          Placed(before, RemoveAt(groups, pos), Showing(before, members), result))
  }

  /** The thread leaves the first group that lists it; an empty group goes, any other is placed anew. */
  ghost predicate RemovedFrom(before: (Thread, Thread) -> bool, groups: seq<ThreadGroup>, t: Thread,
                              result: seq<ThreadGroup>) {
    && (NoneShares(groups, [t]) ==> result == groups)
    && (forall pos: nat :: FirstSharing(groups, [t], pos) ==>
          var members := Without(groups[pos].threads, t);
          if members == [] then result == RemoveAt(groups, pos)
          else Placed(before, RemoveAt(groups, pos), Showing(before, members), result))
  }

  /** What a merge does to any list of groups, up to their order. */
  ghost predicate PutIn(before: (Thread, Thread) -> bool, groups: seq<ThreadGroup>, t: Thread, threads: seq<Thread>,
                        result: seq<ThreadGroup>)
    requires threads != []
  {
    && (NoneShares(groups, threads) ==> multiset(result) == multiset(groups + [ThreadGroup(t, threads)]))
    && (forall pos: nat :: FirstSharing(groups, threads, pos) ==>
          multiset(result) == multiset(groups[pos := Showing(before, Restored(groups[pos].threads, threads))]))
  }

  /** What a removal does to any list of groups, up to their order. */
  ghost predicate TakenOut(before: (Thread, Thread) -> bool, groups: seq<ThreadGroup>, t: Thread,
                           result: seq<ThreadGroup>) {
    && (NoneShares(groups, [t]) ==> result == groups)
    && (forall pos: nat :: FirstSharing(groups, [t], pos) ==>
          var members := Without(groups[pos].threads, t);
          if members == [] then GroupTakenOut(groups, pos, result)
          else multiset(result) == multiset(groups[pos := Showing(before, members)]))
  }

  /** The first group showing the same thread as the one at pos goes, which then has no members. */
  ghost predicate GroupTakenOut(groups: seq<ThreadGroup>, pos: nat, result: seq<ThreadGroup>)
    requires pos < |groups|
  {
    exists i: nat :: i <= pos && SameThread(groups[i].displayedThread, groups[pos].displayedThread)
      && (forall j :: 0 <= j < i ==> !SameThread(groups[j].displayedThread, groups[pos].displayedThread))
      && result == RemoveAt(groups[pos := groups[pos].(threads := [])], i)
  }

  // ---------------------------------------------------------------- groups stay apart

  /** Every group shows one of its members, and no thread is in two groups. */
  ghost predicate Apart(groups: seq<ThreadGroup>) {
    && (forall i :: 0 <= i < |groups| ==> ShowsMember(groups[i]))
    && (forall i, j :: 0 <= i < |groups| && 0 <= j < |groups| && i != j ==>
                         !Shares(groups[i].threads, groups[j].threads))
  }

  ghost predicate ShowsMember(g: ThreadGroup) {
    g.threads != [] && Lists(g.threads, g.displayedThread)
  }

  /** At most one group shares a thread with the entry. */
  ghost predicate OneShares(groups: seq<ThreadGroup>, entry: seq<Thread>) {
    forall i, j :: 0 <= i < j < |groups| && Shares(groups[i].threads, entry) ==> !Shares(groups[j].threads, entry)
  }

  lemma SharesSymmetric(a: seq<Thread>, b: seq<Thread>)
    ensures Shares(a, b) <==> Shares(b, a)
  {
    if t :| t in a && Lists(b, t) {
      var u :| u in b && SameThread(u, t);
      assert SameThread(t, u) && Lists(a, u);
    }
    if t :| t in b && Lists(a, t) {
      var u :| u in a && SameThread(u, t);
      assert SameThread(t, u) && Lists(b, u);
    }
  }

  lemma NotShared(a: seq<Thread>, b: seq<Thread>, t: Thread, u: Thread)
    requires !Shares(a, b) && t in a && u in b
    ensures !SameThread(u, t)
  {
    assert !Lists(b, t);
  }

  lemma ApartDisplaysDiffer(groups: seq<ThreadGroup>)
    requires Apart(groups)
    ensures DisplaysDiffer(groups)
  {
    forall i, j | 0 <= i < j < |groups| ensures !SameThread(groups[i].displayedThread, groups[j].displayedThread) {
      assert ShowsMember(groups[i]) && ShowsMember(groups[j]);
      var t :| t in groups[i].threads && SameThread(t, groups[i].displayedThread);
      var u :| u in groups[j].threads && SameThread(u, groups[j].displayedThread);
      NotShared(groups[i].threads, groups[j].threads, t, u);
    }
  }

  lemma ApartWithout(groups: seq<ThreadGroup>, pos: nat)
    requires Apart(groups) && pos < |groups|
    ensures Apart(RemoveAt(groups, pos))
  {
  }

  lemma PlacedApart(before: (Thread, Thread) -> bool, others: seq<ThreadGroup>, g: ThreadGroup,
                    result: seq<ThreadGroup>)
    requires Apart(others) && ShowsMember(g) && Placed(before, others, g, result)
    ensures Apart(result) <==> NoneShares(others, g.threads)
  {
    var p: nat :| p <= |others|
      && IsPosition(before, Displays(others), g.displayedThread, p) && result == Insert(others, p, g);
    if NoneShares(others, g.threads) {
      InsertApart(others, g, p);
    } else {
      var i :| 0 <= i < |others| && Shares(others[i].threads, g.threads);
      assert result[if i < p then i else i + 1] == others[i] && result[p] == g;
    }
  }

  lemma InsertApart(others: seq<ThreadGroup>, g: ThreadGroup, p: nat)
    requires Apart(others) && ShowsMember(g) && NoneShares(others, g.threads) && p <= |others|
    ensures Apart(Insert(others, p, g))
  {
    var result := Insert(others, p, g);
    forall i, j | 0 <= i < |result| && 0 <= j < |result| && i != j
      ensures !Shares(result[i].threads, result[j].threads)
    {
      if i == p {
        SharesSymmetric(g.threads, result[j].threads);
        assert result[j] == others[if j < p then j else j - 1];
      } else if j == p {
        assert result[i] == others[if i < p then i else i - 1];
      } else {
        assert !Shares(others[if i < p then i else i - 1].threads, others[if j < p then j else j - 1].threads);
      }
    }
  }

  lemma {:induction false} RestoredIdentity(oldThreads: seq<Thread>, t: Thread, u: Thread)
    ensures SameThread(RestoredThread(oldThreads, t), u) <==> SameThread(t, u)
  {
    if t.participants == [] && oldThreads != [] && !SameThread(oldThreads[0], t) {
      RestoredIdentity(oldThreads[1..], t, u);
    }
  }

  lemma RestoredShares(oldThreads: seq<Thread>, threads: seq<Thread>, others: seq<Thread>)
    ensures Shares(others, Restored(oldThreads, threads)) <==> Shares(others, threads)
  {
    var members := Restored(oldThreads, threads);
    forall t ensures Lists(members, t) <==> Lists(threads, t) {
      if u :| u in threads && SameThread(u, t) {
        var i :| 0 <= i < |threads| && threads[i] == u;
        RestoredIdentity(oldThreads, u, t);
        assert members[i] in members;
      }
      if u :| u in members && SameThread(u, t) {
        var i :| 0 <= i < |threads| && members[i] == u;
        RestoredIdentity(oldThreads, threads[i], t);
        assert threads[i] in threads;
      }
    }
  }

  /** An answer of the server keeps the groups apart exactly when its threads come from at most one group. */
  lemma MergeKeepsApartExactly(before: (Thread, Thread) -> bool, groups: seq<ThreadGroup>, t: Thread,
                               threads: seq<Thread>,
                               result: seq<ThreadGroup>)
    requires Apart(groups) && threads != [] && Lists(threads, t) && MergedInto(before, groups, t, threads, result)
    ensures Apart(result) <==> OneShares(groups, threads)
  {
    if NoneShares(groups, threads) {
      PlacedApart(before, groups, ThreadGroup(t, threads), result);
    } else {
      var pos := FirstSharingExists(groups, threads);
      var members, others := Restored(groups[pos].threads, threads), RemoveAt(groups, pos);
      ApartWithout(groups, pos);
      ShowsFirst(before, members);
      PlacedApart(before, others, Showing(before, members), result);
      OnlyOneShares(groups, threads, pos);
    }
  }

  /** A conversation that shares no thread with any group comes in as a group showing the thread it was asked for. */
  lemma NewGroupShowsAsked(before: (Thread, Thread) -> bool, groups: seq<ThreadGroup>, t: Thread, threads: seq<Thread>,
                           result: seq<ThreadGroup>)
    requires threads != [] && MergedInto(before, groups, t, threads, result)
    requires forall i, u, v :: 0 <= i < |groups| && u in groups[i].threads && v in threads ==> !SameThread(u, v)
    ensures multiset(result) == multiset(groups) + multiset{ThreadGroup(t, threads)}
  {
    forall i | 0 <= i < |groups| ensures !Shares(groups[i].threads, threads) {
      forall u | u in groups[i].threads ensures !Lists(threads, u) {
        assert forall v :: v in threads && SameThread(v, u) ==> SameThread(u, v);
      }
    }
    assert Placed(before, groups, ThreadGroup(t, threads), result);
    var p: nat :| p <= |groups| && result == Insert(groups, p, ThreadGroup(t, threads));
    InsertElements(groups, p, ThreadGroup(t, threads));
  }

  lemma ShowsFirst(before: (Thread, Thread) -> bool, members: seq<Thread>)
    requires members != []
    ensures ShowsMember(Showing(before, members))
  {
    var d := First(before, members);
    assert d in members && SameThread(d, d);
  }

  lemma OnlyOneShares(groups: seq<ThreadGroup>, threads: seq<Thread>, pos: nat)
    requires FirstSharing(groups, threads, pos)
    ensures NoneShares(RemoveAt(groups, pos), Restored(groups[pos].threads, threads)) <==> OneShares(groups, threads)
  {
    var members, others := Restored(groups[pos].threads, threads), RemoveAt(groups, pos);
    forall i | 0 <= i < |groups| ensures Shares(groups[i].threads, members) <==> Shares(groups[i].threads, threads) {
      RestoredShares(groups[pos].threads, threads, groups[i].threads);
    }
    if NoneShares(others, members) {
      forall j | 0 <= j < |groups| && j != pos ensures !Shares(groups[j].threads, threads) {
        assert others[if j < pos then j else j - 1] == groups[j];
      }
    } else {
      var k :| 0 <= k < |others| && Shares(others[k].threads, members);
      assert others[k] == groups[if k < pos then k else k + 1];
    }
  }

  /** An answer with the threads of two groups is merged into the first one, and the second keeps its thread too. */
  lemma JoiningAnswerOverlaps(before: (Thread, Thread) -> bool, a: Thread, b: Thread, result: seq<ThreadGroup>)
    requires !SameThread(a, b)
    requires MergedInto(before, [ThreadGroup(a, [a]), ThreadGroup(b, [b])], a, [a, b], result)
    ensures Apart([ThreadGroup(a, [a]), ThreadGroup(b, [b])]) && !Apart(result)
  {
    var groups := [ThreadGroup(a, [a]), ThreadGroup(b, [b])];
    assert groups[0].threads == [a] && groups[1].threads == [b];
    assert a in [a] && SameThread(a, a) && b in [b] && SameThread(b, b);
    assert a in [a, b] && b in [a, b] && Lists([a, b], a) && Lists([a, b], b);
    assert ShowsMember(groups[0]) && ShowsMember(groups[1]);
    assert !SameThread(b, a);
    assert !Lists([b], a) && !Lists([a], b);
    assert !Shares([a], [b]) && !Shares([b], [a]);
    assert Shares(groups[0].threads, [a, b]) && Shares(groups[1].threads, [a, b]);
    MergeKeepsApartExactly(before, groups, a, [a, b], result);
  }

  lemma FirstSharingExists(groups: seq<ThreadGroup>, entry: seq<Thread>) returns (pos: nat)
    requires !NoneShares(groups, entry)
    ensures FirstSharing(groups, entry, pos)
  {
    var last :| 0 <= last < |groups| && Shares(groups[last].threads, entry);
    pos := 0;
    while !Shares(groups[pos].threads, entry)
      invariant pos <= last && forall i :: 0 <= i < pos ==> !Shares(groups[i].threads, entry)
      decreases last - pos
    {
      pos := pos + 1;
    }
  }

  /** After a removal the groups are still apart and none of them lists the thread. */
  lemma RemovalKeepsApart(before: (Thread, Thread) -> bool, groups: seq<ThreadGroup>, t: Thread,
                          result: seq<ThreadGroup>)
    requires Apart(groups) && RemovedFrom(before, groups, t, result)
    ensures Apart(result) && NoneShares(result, [t])
  {
    if !NoneShares(groups, [t]) {
      var pos := FirstSharingExists(groups, [t]);
      var members, others := Without(groups[pos].threads, t), RemoveAt(groups, pos);
      ApartWithout(groups, pos);
      OthersDoNotList(groups, t, pos);
      if members != [] {
        var g := Showing(before, members);
        ShowsFirst(before, members);
        FewerShareLess(groups, t, pos);
        PlacedApart(before, others, g, result);
        PlacedShares(before, others, g, result, [t]);
      }
    }
  }

  lemma OthersDoNotList(groups: seq<ThreadGroup>, t: Thread, pos: nat)
    requires Apart(groups) && FirstSharing(groups, [t], pos)
    ensures NoneShares(RemoveAt(groups, pos), [t])
    ensures !Shares(Without(groups[pos].threads, t), [t])
  {
    var u :| u in groups[pos].threads && Lists([t], u);
    forall i | 0 <= i < |groups| && i != pos ensures !Shares(groups[i].threads, [t]) {
      assert !Shares(groups[i].threads, groups[pos].threads);
      forall v | v in groups[i].threads ensures !Lists([t], v) {
        NotShared(groups[i].threads, groups[pos].threads, v, u);
      }
    }
    forall v | v in Without(groups[pos].threads, t) ensures !Lists([t], v) {
    }
  }

  lemma FewerShareLess(groups: seq<ThreadGroup>, t: Thread, pos: nat)
    requires Apart(groups) && pos < |groups|
    ensures NoneShares(RemoveAt(groups, pos), Without(groups[pos].threads, t))
  {
    forall i | 0 <= i < |groups| && i != pos ensures !Shares(groups[i].threads, Without(groups[pos].threads, t)) {
      assert !Shares(groups[i].threads, groups[pos].threads);
      forall v | v in groups[i].threads ensures !Lists(Without(groups[pos].threads, t), v) {
        assert !Lists(groups[pos].threads, v);
      }
    }
  }

  lemma PlacedShares(before: (Thread, Thread) -> bool, others: seq<ThreadGroup>, g: ThreadGroup,
                     result: seq<ThreadGroup>,
                     entry: seq<Thread>)
    requires Placed(before, others, g, result) && NoneShares(others, entry) && !Shares(g.threads, entry)
    ensures NoneShares(result, entry)
  {
    var p: nat :| p <= |others|
      && IsPosition(before, Displays(others), g.displayedThread, p) && result == Insert(others, p, g);
    forall i | 0 <= i < |result| ensures !Shares(result[i].threads, entry) {
      assert result[i] == if i == p then g else others[if i < p then i else i - 1];
    }
  }
}
