/**
 * The grouped threads of the client against the conversation cache of the server: after every change
 * that is delivered before the next one, both hold the same conversations.
 */
module ClientMirror {
  import opened Permutations
  import opened Threads
  import opened HistoryModel
  import opened Conversations
  import opened CacheRepair
  import opened GroupedThreadsModel
  import opened ConversationRuns
  import ConversationPartition
  import opened ConversationCaches

  /** Sorting by last event time, newest first. */
  function NewestFirst(): (Thread, Thread) -> bool {
    (a: Thread, b: Thread) => b.timestamp < a.timestamp
  }

  const LAST_EVENT := "lastEventTimestamp"

  /** It is the model's order for that sort field, descending, over items that carry their thread's timestamp. */
  lemma NewestFirstIsModelOrder(o: Order<int>, left: Item<int>, right: Item<int>, a: Thread, b: Thread)
    requires o.sortField == LAST_EVENT && !o.ascending && forall x, y :: o.less(x, y) <==> x < y
    requires LAST_EVENT in left && LAST_EVENT in right
    requires left[LAST_EVENT] == a.timestamp && right[LAST_EVENT] == b.timestamp
    ensures Before(o, left, right) <==> NewestFirst()(a, b)
  {
    SingleFieldOrder(o, right, left);
  }

  lemma NewestFirstIsStrictWeak()
    ensures StrictWeakOrder(NewestFirst())
  {
  }

  /** The displayed thread of the client is the one the server's cache shows. */
  lemma FirstIsLatest(members: seq<Thread>)
    requires members != []
    ensures First(NewestFirst(), members) == Latest(members)
  {
    var at := FirstOfTies(NewestFirst(), members);
    FirstGreatest(members, at);
  }

  /** The groups, newest first, are exactly the conversations: same members, same displayed thread. */
  ghost predicate Mirrors(groups: seq<ThreadGroup>, convs: Conversations) {
    && InOrder(NewestFirst(), groups)
    && (forall i :: 0 <= i < |groups| ==> Shows(groups[i], convs))
    && (forall i, j :: 0 <= i < j < |groups| ==> Key(groups[i].displayedThread) != Key(groups[j].displayedThread))
    && (forall k :: k in convs ==> ShownAt(groups, k))
  }

  ghost predicate ShownAt(groups: seq<ThreadGroup>, k: string) {
    exists i :: 0 <= i < |groups| && Key(groups[i].displayedThread) == k
  }

  ghost predicate Shows(g: ThreadGroup, convs: Conversations) {
    var k := Key(g.displayedThread);
    k in convs && convs[k] != [] && g.threads == convs[k] && g.displayedThread == Latest(convs[k])
  }

  lemma StillShows(g: ThreadGroup, convs: Conversations, k: string, members: seq<Thread>)
    requires Shows(g, convs) && Key(g.displayedThread) != k
    ensures Shows(g, convs[k := members]) && Shows(g, convs - {k})
  {
  }

  lemma MirrorPlaced(others: seq<ThreadGroup>, base: Conversations, members: seq<Thread>, result: seq<ThreadGroup>)
    requires Mirrors(others, base) && members != [] && Key(Latest(members)) !in base
    requires Placed(NewestFirst(), others, ThreadGroup(Latest(members), members), result)
    ensures Mirrors(result, base[Key(Latest(members)) := members])
  {
    var g := ThreadGroup(Latest(members), members);
    NewestFirstIsStrictWeak();
    PlacedInOrder(NewestFirst(), others, g, result);
    var p: nat :| p <= |others| && result == Insert(others, p, g);
    InsertDiffers(others, base, p, g);
    InsertShows(others, base, p, members);
    InsertCovers(others, base, p, members);
  }

  lemma InsertShows(others: seq<ThreadGroup>, base: Conversations, p: nat, members: seq<Thread>)
    requires Mirrors(others, base) && members != [] && Key(Latest(members)) !in base && p <= |others|
    ensures var result := Insert(others, p, ThreadGroup(Latest(members), members));
            forall i :: 0 <= i < |result| ==> Shows(result[i], base[Key(Latest(members)) := members])
  {
    var result := Insert(others, p, ThreadGroup(Latest(members), members));
    forall i | 0 <= i < |result| ensures Shows(result[i], base[Key(Latest(members)) := members]) {
      if i != p {
        var o := others[if i < p then i else i - 1];
        assert Shows(o, base);
        StillShows(o, base, Key(Latest(members)), members);
      }
    }
  }

  lemma InsertCovers(others: seq<ThreadGroup>, base: Conversations, p: nat, members: seq<Thread>)
    requires Mirrors(others, base) && members != [] && p <= |others|
    ensures var result := Insert(others, p, ThreadGroup(Latest(members), members));
            forall k :: k in base[Key(Latest(members)) := members] ==> ShownAt(result, k)
  {
    var g := ThreadGroup(Latest(members), members);
    var result := Insert(others, p, g);
    forall k | k in base[Key(Latest(members)) := members] ensures ShownAt(result, k) {
      if k == Key(Latest(members)) {
        assert Key(result[p].displayedThread) == k;
      } else {
        ShownAfterInsert(others, p, g, k);
      }
    }
  }

  lemma ShownAfterInsert(others: seq<ThreadGroup>, p: nat, g: ThreadGroup, k: string)
    requires p <= |others| && ShownAt(others, k)
    ensures ShownAt(Insert(others, p, g), k)
  {
    var i :| 0 <= i < |others| && Key(others[i].displayedThread) == k;
    assert Insert(others, p, g)[if i < p then i else i + 1] == others[i];
  }

  lemma InsertDiffers(others: seq<ThreadGroup>, base: Conversations, p: nat, g: ThreadGroup)
    requires Mirrors(others, base) && p <= |others| && Key(g.displayedThread) !in base
    ensures var result := Insert(others, p, g);
            forall i, j :: 0 <= i < j < |result| ==> Key(result[i].displayedThread) != Key(result[j].displayedThread)
  {
    var result := Insert(others, p, g);
    forall i, j | 0 <= i < j < |result| ensures Key(result[i].displayedThread) != Key(result[j].displayedThread) {
      if i != p { assert Shows(others[if i < p then i else i - 1], base); }
      if j != p { assert Shows(others[if j < p then j else j - 1], base); }
    }
  }

  lemma MirrorWithout(groups: seq<ThreadGroup>, convs: Conversations, pos: nat)
    requires Mirrors(groups, convs) && pos < |groups|
    ensures Mirrors(RemoveAt(groups, pos), convs - {Key(groups[pos].displayedThread)})
  {
    RemoveInOrder(NewestFirst(), groups, pos);
    RemoveShows(groups, convs, pos);
    RemoveCovers(groups, convs, pos);
  }

  lemma RemoveShows(groups: seq<ThreadGroup>, convs: Conversations, pos: nat)
    requires Mirrors(groups, convs) && pos < |groups|
    ensures forall i :: 0 <= i < |groups| - 1 ==>
              Shows(RemoveAt(groups, pos)[i], convs - {Key(groups[pos].displayedThread)})
  {
    var left := RemoveAt(groups, pos);
    forall i | 0 <= i < |left| ensures Shows(left[i], convs - {Key(groups[pos].displayedThread)}) {
      assert Shows(left[i], convs);
      StillShows(left[i], convs, Key(groups[pos].displayedThread), []);
    }
  }

  lemma RemoveCovers(groups: seq<ThreadGroup>, convs: Conversations, pos: nat)
    requires Mirrors(groups, convs) && pos < |groups|
    ensures forall x :: x in convs - {Key(groups[pos].displayedThread)} ==> ShownAt(RemoveAt(groups, pos), x)
  {
    var left := RemoveAt(groups, pos);
    forall x | x in convs - {Key(groups[pos].displayedThread)} ensures ShownAt(left, x) {
      assert x in convs && ShownAt(groups, x);
      ShownAfterRemoval(groups, pos, x);
    }
  }

  lemma ShownAfterRemoval(groups: seq<ThreadGroup>, pos: nat, x: string)
    requires pos < |groups| && ShownAt(groups, x) && x != Key(groups[pos].displayedThread)
    ensures ShownAt(RemoveAt(groups, pos), x)
  {
    var i :| 0 <= i < |groups| && Key(groups[i].displayedThread) == x;
    assert RemoveAt(groups, pos)[if i < pos then i else i - 1] == groups[i];
  }

  // ---------------------------------------------------------------- finding the group

  /** The group of a conversation is the first, and only, one that shares a thread with a list of its threads. */
  lemma SharesOnlyWith(groups: seq<ThreadGroup>, convs: Conversations, k: string, entry: seq<Thread>, i: nat)
    requires Wf(convs) && Mirrors(groups, convs) && i < |groups| && Shares(groups[i].threads, entry)
    requires forall j, x :: HasKey(entry, x) && Holds(convs, j, x) ==> j == k
    ensures Key(groups[i].displayedThread) == k
  {
    assert Shows(groups[i], convs);
    var t :| t in groups[i].threads && Lists(entry, t);
    var u :| u in entry && SameThread(u, t);
    assert Key(u) == Key(t);
    assert HasKey(entry, Key(t)) && Holds(convs, Key(groups[i].displayedThread), Key(t));
  }

  lemma GroupOf(groups: seq<ThreadGroup>, convs: Conversations, k: string, entry: seq<Thread>) returns (pos: nat)
    requires Wf(convs) && Mirrors(groups, convs) && k in convs && Shares(convs[k], entry)
    requires forall j, x :: HasKey(entry, x) && Holds(convs, j, x) ==> j == k
    ensures pos < |groups| && FirstSharing(groups, entry, pos) && Key(groups[pos].displayedThread) == k
    ensures groups[pos].threads == convs[k]
  {
    assert ShownAt(groups, k);
    pos :| 0 <= pos < |groups| && Key(groups[pos].displayedThread) == k;
    assert Shows(groups[pos], convs);
    forall i | 0 <= i < pos ensures !Shares(groups[i].threads, entry) {
      if Shares(groups[i].threads, entry) { SharesOnlyWith(groups, convs, k, entry, i); }
    }
  }

  lemma NoGroup(groups: seq<ThreadGroup>, convs: Conversations, entry: seq<Thread>)
    requires Wf(convs) && Mirrors(groups, convs) && forall x :: HasKey(entry, x) ==> !Cached(convs, x)
    ensures NoneShares(groups, entry)
  {
    forall i | 0 <= i < |groups| ensures !Shares(groups[i].threads, entry) {
      assert Shows(groups[i], convs);
      forall t | t in groups[i].threads ensures !Lists(entry, t) {
        assert Holds(convs, Key(groups[i].displayedThread), Key(t));
        forall u | u in entry ensures !SameThread(u, t) {
          assert HasKey(entry, Key(u));
        }
      }
    }
  }

  // ---------------------------------------------------------------- one addition

  /** t does not come without any participants when the cached thread with its key has some. */
  ghost predicate KeepsParticipants(convs: Conversations, t: Thread) {
    forall k, u :: k in convs && u in convs[k] && Key(u) == Key(t) ==> t.participants != [] || u.participants == []
  }

  lemma {:induction false} RestoredThreadSame(oldThreads: seq<Thread>, t: Thread)
    requires forall u :: u in oldThreads && SameThread(u, t) ==> t.participants != [] || u.participants == []
    ensures RestoredThread(oldThreads, t) == t
  {
    if t.participants == [] && oldThreads != [] {
      if SameThread(oldThreads[0], t) {
        assert oldThreads[0] in oldThreads;
        assert t.participants + oldThreads[0].participants == t.participants;
      } else {
        RestoredThreadSame(oldThreads[1..], t);
      }
    }
  }

  lemma RestoredSame(oldThreads: seq<Thread>, members: seq<Thread>)
    requires forall u, v :: u in oldThreads && v in members && SameThread(u, v) ==>
                              v.participants != [] || u.participants == []
    ensures Restored(oldThreads, members) == members
  {
    forall i | 0 <= i < |members| ensures RestoredThread(oldThreads, members[i]) == members[i] {
      assert members[i] in members;
      RestoredThreadSame(oldThreads, members[i]);
    }
  }

  lemma MembersKeepParticipants(phone: (string, string) -> bool, convs: Conversations, t: Thread, k: string)
    requires Wf(convs) && t.eventType.Text? && Coherent(convs, t) && KeepsParticipants(convs, t)
    requires k in convs && k == AddedMembers(phone, convs, t).0
    ensures Restored(convs[k], AddedMembers(phone, convs, t).1) == AddedMembers(phone, convs, t).1
  {
    var members := AddedMembers(phone, convs, t).1;
    forall u, v | u in convs[k] && v in members && SameThread(u, v)
      ensures v.participants != [] || u.participants == []
    {
      assert Key(u) == Key(v);
      MembersAfterAdd(phone, convs, t, v);
      if v != t { ConversationPartition.DistinctKeysSame(convs[k], u, v); }
    }
    RestoredSame(convs[k], members);
  }

  lemma OldSharesWithNew(phone: (string, string) -> bool, convs: Conversations, t: Thread, k: string)
    requires Wf(convs) && t.eventType.Text? && Coherent(convs, t)
    requires k in convs && k == AddedMembers(phone, convs, t).0
    ensures Shares(convs[k], AddedMembers(phone, convs, t).1)
  {
    var members := AddedMembers(phone, convs, t).1;
    var u := convs[k][0];
    MembersAfterAdd(phone, convs, t, u);
    MembersAfterAdd(phone, convs, t, t);
    assert Agree(u, t);
    assert Lists(members, u) by {
      if Key(u) == Key(t) { assert SameThread(t, u); } else { assert u in members; }
    }
  }

  /** After the server added t and the client asked about it, both hold the same conversations again. */
  lemma MirrorAfterAdd(phone: (string, string) -> bool, convs: Conversations, t: Thread, groups: seq<ThreadGroup>,
                       result: seq<ThreadGroup>)
    requires Wf(convs) && t.eventType.Text? && Coherent(convs, t) && KeepsParticipants(convs, t)
    requires Mirrors(groups, convs)
    requires AddedMembers(phone, convs, t).1 != []
    requires MergedInto(NewestFirst(), groups, t, AddedMembers(phone, convs, t).1, result)
    ensures Mirrors(result, Added(phone, convs, t))
  {
    var (k, members) := AddedMembers(phone, convs, t);
    AddedMembersOk(phone, convs, t);
    var d := Key(Latest(members));
    AddedDisplayKey(phone, convs, t);
    if k in convs {
      OldSharesWithNew(phone, convs, t, k);
      MembersKeepParticipants(phone, convs, t, k);
      var pos := GroupOf(groups, convs, k, members);
      FirstIsLatest(members);
      assert Placed(NewestFirst(), RemoveAt(groups, pos), ThreadGroup(Latest(members), members), result);
      MirrorWithout(groups, convs, pos);
      MirrorPlaced(RemoveAt(groups, pos), convs - {k}, members, result);
    } else {
      NoGroup(groups, convs, members);
      assert members == [t] && convs - {k} == convs;
      MirrorPlaced(groups, convs, members, result);
    }
  }

  /**
   * An addition is mirrored exactly when the thread did not lose all its participants: the client gives a thread
   * without participants those it knew, and the server's cache does not.
   */
  lemma MirrorSurvivesExactly(phone: (string, string) -> bool, convs: Conversations, t: Thread,
                              groups: seq<ThreadGroup>,
                              result: seq<ThreadGroup>)
    requires Wf(convs) && t.eventType.Text? && Coherent(convs, t) && Mirrors(groups, convs)
    requires AddedMembers(phone, convs, t).1 != []
    requires MergedInto(NewestFirst(), groups, t, AddedMembers(phone, convs, t).1, result)
    ensures Mirrors(result, Added(phone, convs, t)) <==> KeepsParticipants(convs, t)
  {
    if KeepsParticipants(convs, t) {
      MirrorAfterAdd(phone, convs, t, groups, result);
    } else {
      var k, u :| k in convs && u in convs[k] && Key(u) == Key(t) && t.participants == [] && u.participants != [];
      LostParticipantsBreak(phone, convs, t, k, u, groups, result);
    }
  }

  lemma LostParticipantsBreak(phone: (string, string) -> bool, convs: Conversations, t: Thread, k: string, u: Thread,
                              groups: seq<ThreadGroup>, result: seq<ThreadGroup>)
    requires Wf(convs) && t.eventType.Text? && Coherent(convs, t) && Mirrors(groups, convs)
    requires k in convs && u in convs[k] && Key(u) == Key(t) && t.participants == [] && u.participants != []
    requires AddedMembers(phone, convs, t).1 != []
    requires MergedInto(NewestFirst(), groups, t, AddedMembers(phone, convs, t).1, result)
    ensures !Mirrors(result, Added(phone, convs, t))
  {
    var members := AddedMembers(phone, convs, t).1;
    assert Agree(u, t) && Holds(convs, k, Key(t));
    AddedMembersOk(phone, convs, t);
    AddedDisplayKey(phone, convs, t);
    OldSharesWithNew(phone, convs, t, k);
    var pos := GroupOf(groups, convs, k, members);
    var restored := Restored(groups[pos].threads, members);
    var g := ThreadGroup(First(NewestFirst(), restored), restored);
    MembersAfterAdd(phone, convs, t, t);
    var i :| 0 <= i < |members| && members[i] == t;
    RestoredGains(convs[k], t, u);
    assert restored[i] in restored && restored[i] != t && Key(restored[i]) == Key(t);
    assert Placed(NewestFirst(), RemoveAt(groups, pos), g, result);
    if Mirrors(result, Added(phone, convs, t)) {
      assert g in result;
      NotShown(phone, convs, t, g, restored[i]);
    }
  }

  /** One thread with participants, announced again without: the client shows it with them, the server without. */
  lemma LostParticipantsReturn(phone: (string, string) -> bool, u: Thread, result: seq<ThreadGroup>)
    requires u.eventType.Text? && u.participants != []
    requires var t := u.(participants := []);
             var members := AddedMembers(phone, map[Key(u) := [u]], t).1;
             members != [] && MergedInto(NewestFirst(), [ThreadGroup(u, [u])], t, members, result)
    ensures Mirrors([ThreadGroup(u, [u])], map[Key(u) := [u]])
    ensures !Mirrors(result, Added(phone, map[Key(u) := [u]], u.(participants := [])))
  {
    var convs, groups, t := map[Key(u) := [u]], [ThreadGroup(u, [u])], u.(participants := []);
    OneGroupMirrors(u);
    assert convs[Key(u)] == [u] && u in convs[Key(u)];
    MirrorSurvivesExactly(phone, convs, t, groups, result);
  }

  lemma OneGroupMirrors(u: Thread)
    requires u.eventType.Text?
    ensures var convs := map[Key(u) := [u]];
            && Wf(convs) && Mirrors([ThreadGroup(u, [u])], convs)
            && forall k, v :: k in convs && v in convs[k] ==> k == Key(u) && v == u
  {
    var convs, groups := map[Key(u) := [u]], [ThreadGroup(u, [u])];
    assert convs[Key(u)] == [u] && Latest([u]) == u;
    assert groups[0].displayedThread == u && Shows(groups[0], convs) && ShownAt(groups, Key(u));
  }

  lemma {:induction false} RestoredGains(oldThreads: seq<Thread>, t: Thread, u: Thread)
    requires DistinctKeys(oldThreads) && u in oldThreads && SameThread(u, t)
    requires t.participants == [] && u.participants != []
    ensures RestoredThread(oldThreads, t) == t.(participants := u.participants)
  {
    if SameThread(oldThreads[0], t) {
      assert Key(oldThreads[0]) == Key(u);
      ConversationPartition.DistinctKeysSame(oldThreads, oldThreads[0], u);
      assert t.participants + u.participants == u.participants;
    } else {
      RestoredGains(oldThreads[1..], t, u);
    }
  }

  /** The cache after the addition lists no other version of t. */
  lemma NotShown(phone: (string, string) -> bool, convs: Conversations, t: Thread, g: ThreadGroup, v: Thread)
    requires Wf(convs) && t.eventType.Text? && Coherent(convs, t)
    requires v in g.threads && v != t && Key(v) == Key(t)
    ensures !Shows(g, Added(phone, convs, t))
  {
    AddedContent(phone, convs, t, v);
    ShownIsCached(g, Added(phone, convs, t), v);
  }

  lemma ShownIsCached(g: ThreadGroup, convs: Conversations, v: Thread)
    requires v in g.threads
    ensures Shows(g, convs) ==> InCache(convs, v)
  {
  }

  /** The key the changed conversation gets is not the key of another one. */
  lemma AddedDisplayKey(phone: (string, string) -> bool, convs: Conversations, t: Thread)
    requires Wf(convs) && t.eventType.Text? && Coherent(convs, t)
    ensures var (k, members) := AddedMembers(phone, convs, t);
            && members != [] && (Key(Latest(members)) in convs ==> Key(Latest(members)) == k)
            && (forall j, x :: HasKey(members, x) && Holds(convs, j, x) ==> j == k)
            && (k !in convs ==> members == [t] && forall x :: HasKey(members, x) ==> !Cached(convs, x))
  {
    var (k, members) := AddedMembers(phone, convs, t);
    AddedMembersOk(phone, convs, t);
    forall j, x | HasKey(members, x) && Holds(convs, j, x) ensures j == k {
      if x == Key(t) { assert Cached(convs, Key(t)); }
    }
    var d := Key(Latest(members));
    assert HasKey(members, d);
    if d in convs { KeyIsHeld(convs, d); }
  }

  /** After the server removed t and the client was told, both hold the same conversations again. */
  lemma MirrorAfterRemove(convs: Conversations, t: Thread, groups: seq<ThreadGroup>, result: seq<ThreadGroup>)
    requires Wf(convs) && Coherent(convs, t) && Mirrors(groups, convs)
    requires RemovedFrom(NewestFirst(), groups, t, result)
    ensures Mirrors(result, Removed(convs, t))
  {
    assert forall x :: HasKey([t], x) <==> x == Key(t);
    if Cached(convs, Key(t)) {
      var k := Home(convs, Key(t));
      var members := Without(convs[k], t);
      RemoveFacts(convs, k, t);
      var u :| u in convs[k] && Key(u) == Key(t);
      assert Agree(u, t) && SameThread(t, u) && Lists([t], u);
      var pos := GroupOf(groups, convs, k, [t]);
      MirrorWithout(groups, convs, pos);
      if members != [] {
        FirstIsLatest(members);
        MemberKey(convs, k, Latest(members));
        MirrorPlaced(RemoveAt(groups, pos), convs - {k}, members, result);
      }
    } else {
      NoGroup(groups, convs, [t]);
    }
  }

  lemma MirrorsApart(groups: seq<ThreadGroup>, convs: Conversations)
    requires Wf(convs) && Mirrors(groups, convs)
    ensures Apart(groups)
  {
    forall i | 0 <= i < |groups| ensures ShowsMember(groups[i]) {
      assert Shows(groups[i], convs);
      assert SameThread(groups[i].displayedThread, groups[i].displayedThread);
    }
    forall i, j | 0 <= i < |groups| && 0 <= j < |groups| && i != j
      ensures !Shares(groups[i].threads, groups[j].threads)
    {
      assert Shows(groups[i], convs) && Shows(groups[j], convs);
      forall t, u | t in groups[i].threads && u in groups[j].threads ensures !SameThread(u, t) {
        assert Holds(convs, Key(groups[i].displayedThread), Key(t));
        assert Holds(convs, Key(groups[j].displayedThread), Key(u));
      }
    }
  }

  // ---------------------------------------------------------------- whole runs

  lemma AddedAnswer(phone: (string, string) -> bool, convs: Conversations, t: Thread, k: string, u: Thread)
    requires Wf(convs) && t.eventType.Text? && Coherent(convs, t)
    requires Holds(Added(phone, convs, t), k, Key(t)) && u in Added(phone, convs, t)[k] && Key(u) == Key(t)
    ensures u == t && Added(phone, convs, t)[k] == AddedMembers(phone, convs, t).1
  {
    var (h, members) := AddedMembers(phone, convs, t);
    var after := Added(phone, convs, t);
    AddedMembersOk(phone, convs, t);
    AddedOk(phone, convs, t);
    var d := Key(Latest(members));
    assert after[d] == members;
    assert HasKey(members, Key(t)) && Holds(after, d, Key(t));
    assert k == d;
    MembersAfterAdd(phone, convs, t, u);
  }

  /** One change of the server, delivered to the client. */
  method Deliver(cache: ConversationCache, model: GroupedThreads, op: Op)
    requires cache.Valid() && model.Valid() && model.before == NewestFirst()
    requires op.thread.eventType.Text? && op.thread.accountId != "" && op.thread.threadId != ""
    requires Coherent(cache.mConversationsCache, op.thread) && KeepsParticipants(cache.mConversationsCache, op.thread)
    requires Mirrors(model.mGroups, cache.mConversationsCache)
    modifies cache, model
    ensures cache.Valid() && model.Valid()
    ensures cache.mConversationsCache == Step(cache.phone, old(cache.mConversationsCache), op)
    ensures Mirrors(model.mGroups, cache.mConversationsCache)
  {
    ghost var convs, groups, t := cache.mConversationsCache, model.mGroups, op.thread;
    match op {
      case Put(thread) =>
        cache.AddThread(thread);
        ghost var after := cache.mConversationsCache;
        AddedOk(cache.phone, convs, thread);
        assert Cached(after, Key(thread));
        var answer := cache.GetSingleThread(thread);
        ghost var k := cache.mConversationsCacheKeys[Key(thread)];
        AddedAnswer(cache.phone, convs, thread, k, answer.thread);
        model.ProcessThreadGrouping(thread, answer);
        MirrorAfterAdd(cache.phone, convs, thread, groups, model.mGroups);
      case Drop(thread) =>
        cache.RemoveThreadFromCache(thread);
        model.RemoveThreadFromGroup(thread);
        MirrorAfterRemove(convs, thread, groups, model.mGroups);
    }
    MirrorsApart(model.mGroups, cache.mConversationsCache);
  }

  /** No later version of a thread comes without any participants when an earlier one had some. */
  ghost predicate SteadyRun(ops: seq<Op>) {
    forall i, j :: 0 <= i < j < |ops| && Key(ops[i].thread) == Key(ops[j].thread) ==>
                     ops[j].thread.participants != [] || ops[i].thread.participants == []
  }

  lemma RunKeepsParticipants(phone: (string, string) -> bool, ops: seq<Op>, n: nat)
    requires Legal(ops) && SteadyRun(ops) && n < |ops|
    ensures Coherent(Run(phone, ops[..n]), ops[n].thread) && KeepsParticipants(Run(phone, ops[..n]), ops[n].thread)
  {
    var convs, t := Run(phone, ops[..n]), ops[n].thread;
    forall k, u | k in convs && u in convs[k] ensures Agree(u, t) {
      var i := CachedFromOps(phone, ops, n, k, u);
    }
    forall k, u | k in convs && u in convs[k] && Key(u) == Key(t) ensures t.participants != [] || u.participants == [] {
      var i := CachedFromOps(phone, ops, n, k, u);
    }
  }

  /** After every step of every run the client's groups are the server's conversations. */
  method RunBoth(phone: (string, string) -> bool, ops: seq<Op>) returns (cache: ConversationCache,
                 model: GroupedThreads)
    requires Legal(ops) && SteadyRun(ops)
    requires forall i :: 0 <= i < |ops| ==> ops[i].thread.accountId != "" && ops[i].thread.threadId != ""
    ensures cache.Valid() && model.Valid() && cache.phone == phone
    ensures cache.mConversationsCache == Run(phone, ops)
    ensures Mirrors(model.mGroups, Run(phone, ops))
  {
    NewestFirstIsStrictWeak();
    cache := new ConversationCache(phone);
    model := new GroupedThreads(NewestFirst());
    for n := 0 to |ops|
      invariant fresh(cache) && fresh(model) && cache.phone == phone
      invariant cache.Valid() && model.Valid() && model.before == NewestFirst()
      invariant cache.mConversationsCache == Run(phone, ops[..n])
      invariant Mirrors(model.mGroups, cache.mConversationsCache)
    {
      RunKeepsParticipants(phone, ops, n);
      Deliver(cache, model, ops[n]);
      assert ops[..n + 1][..n] == ops[..n];
    }
    assert ops[..|ops|] == ops;
  }
}
