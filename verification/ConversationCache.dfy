/** The conversation cache of the SQLite plugin: two maps kept in step by hand (sqlitehistoryplugin.cpp). */
module ConversationCaches {
  import opened Strings
  import opened Threads
  import opened Conversations
  import opened CacheRepair
  import Participants

  class ConversationCache {
    /** compareNormalizedPhoneNumbers */
    const phone: (string, string) -> bool
    var mConversationsCache: map<string, seq<Thread>>
    var mConversationsCacheKeys: map<string, string>

    ghost predicate Valid()
      reads this
    {
      Wf(mConversationsCache) && Indexes(mConversationsCacheKeys, mConversationsCache)
    }

    constructor (phone: (string, string) -> bool)
      ensures Valid() && this.phone == phone
      ensures mConversationsCache == map[] && mConversationsCacheKeys == map[]
    {
      this.phone := phone;
      mConversationsCache, mConversationsCacheKeys := map[], map[];
    }

    /** The Q_FOREACH loops that take every grouped thread out of the reverse map. */
    method ForgetKeys(threads: seq<Thread>)
      modifies this`mConversationsCacheKeys
      ensures Forgotten(old(mConversationsCacheKeys), threads, mConversationsCacheKeys)
    {
      for i := 0 to |threads|
        invariant Forgotten(old(mConversationsCacheKeys), threads[..i], mConversationsCacheKeys)
      {
        mConversationsCacheKeys := mConversationsCacheKeys - {Key(threads[i])};
        assert threads[..i + 1] == threads[..i] + [threads[i]];
        forall x ensures HasKey(threads[..i + 1], x) <==> HasKey(threads[..i], x) || x == Key(threads[i]) {
          AppendKeys(threads[..i], threads[i], x);
        }
      }
      assert threads[..|threads|] == threads;
    }

    /** The loop of updateDisplayedThread that picks the thread to display. */
    static method FindDisplayed(threads: seq<Thread>) returns (displayedThread: Thread)
      requires threads != []
      ensures displayedThread == Latest(threads)
    {
      displayedThread := threads[0];
      ghost var at := 0;
      for i := 0 to |threads|
        invariant 0 <= at < |threads| && displayedThread == threads[at]
        invariant forall j :: 0 <= j < at ==> threads[j].timestamp < threads[at].timestamp
        invariant forall j :: 0 <= j < i ==> threads[j].timestamp <= threads[at].timestamp
      {
        var other := threads[i];
        if displayedThread.timestamp < other.timestamp {
          displayedThread := other;
          at := i;
        }
      }
      FirstGreatest(threads, at);
    }

    /** The loop of updateDisplayedThread that points every grouped thread at the conversation. */
    method PointKeys(threads: seq<Thread>, newDisplayedThreadKey: string)
      modifies this`mConversationsCacheKeys
      ensures Repointed(old(mConversationsCacheKeys), threads, newDisplayedThreadKey, mConversationsCacheKeys)
    {
      for i := 0 to |threads|
        invariant Repointed(old(mConversationsCacheKeys), threads[..i], newDisplayedThreadKey, mConversationsCacheKeys)
      {
        mConversationsCacheKeys := mConversationsCacheKeys[Key(threads[i]) := newDisplayedThreadKey];
        assert threads[..i + 1] == threads[..i] + [threads[i]];
        forall x ensures HasKey(threads[..i + 1], x) <==> HasKey(threads[..i], x) || x == Key(threads[i]) {
          AppendKeys(threads[..i], threads[i], x);
        }
      }
      assert threads[..|threads|] == threads;
    }

    /** Finds the displayed thread of a conversation, files the conversation under it and repairs the reverse map. */
    method UpdateDisplayedThread(displayedThreadKey: string)
      requires displayedThreadKey in mConversationsCache && mConversationsCache[displayedThreadKey] != []
      modifies this
      ensures var threads := old(mConversationsCache)[displayedThreadKey];
              && mConversationsCache == Replace(old(mConversationsCache), displayedThreadKey, threads)
              && Repointed(old(mConversationsCacheKeys), threads, Key(Latest(threads)), mConversationsCacheKeys)
    {
      var threads := mConversationsCache[displayedThreadKey];
      var displayedThread := FindDisplayed(threads);
      var newDisplayedThreadKey := Key(displayedThread);
      mConversationsCache := mConversationsCache - {displayedThreadKey};
      mConversationsCache := mConversationsCache[newDisplayedThreadKey := threads];
      // the reverse map follows
      PointKeys(threads, newDisplayedThreadKey);
    }

    /** The inner loop of addThreadsToCache: does t belong with any of the grouped threads? */
    method BelongsWith(t: Thread, groupedThreads: seq<Thread>) returns (found: bool)
      requires ShouldGroupThread(t)
      ensures found <==> exists u :: u in groupedThreads && Matches(phone, t, u)
    {
      found := false;
      for i := 0 to |groupedThreads|
        invariant !found
        invariant forall u :: u in groupedThreads[..i] ==> !Matches(phone, t, u)
      {
        var groupedThread := groupedThreads[i];
        assert groupedThreads[..i + 1] == groupedThreads[..i] + [groupedThread];
        if !ShouldGroupThread(groupedThread) || t.chatType != groupedThread.chatType {
          continue;
        }
        found := Participants.CompareNormalizedParticipants(phone, t.participants, groupedThread.participants,
                                                            Participants.Phone);
        if found {
          assert Matches(phone, t, groupedThread);
          break;
        }
      }
      assert groupedThreads[..|groupedThreads|] == groupedThreads;
    }

    /** The outer loop: conversations are tried in the order of their keys. */
    method FindConversation(t: Thread) returns (found: bool, conversationKey: string)
      requires ShouldGroupThread(t)
      ensures found <==> MatchingKeys(phone, mConversationsCache, t) != {}
      ensures found ==> conversationKey == Least(MatchingKeys(phone, mConversationsCache, t))
    {
      found, conversationKey := false, [];
      ghost var matching := MatchingKeys(phone, mConversationsCache, t);
      var pending := mConversationsCache.Keys;
      while pending != {}
        invariant !found && pending <= mConversationsCache.Keys
        invariant forall k :: k in matching ==> k in pending
        decreases pending
      {
        var k := Least(pending);
        found := BelongsWith(t, mConversationsCache[k]);
        if found {
          conversationKey := k;
          assert k in matching;
          StringLeAntisymmetric(k, Least(matching));
          break;
        }
        pending := pending - {k};
      }
    }

    /** A thread of a conversation changed: it moves to the end of the list. */
    method UpdateMember(t: Thread)
      requires Valid() && Coherent(mConversationsCache, t) && t.eventType.Text?
      requires Key(t) in mConversationsCacheKeys
      modifies this
      ensures Valid()
      ensures mConversationsCache == Added(phone, old(mConversationsCache), t)
    {
      ghost var convs, before := mConversationsCache, mConversationsCacheKeys;
      var threadKey := Key(t);
      var conversationKey := mConversationsCacheKeys[threadKey];
      var groupedThreads := mConversationsCache[conversationKey];
      UpdateFacts(phone, convs, before, t);
      ForgetKeys(groupedThreads);
      ghost var during := mConversationsCacheKeys;
      assert threadKey !in during;
      groupedThreads := Without(groupedThreads, t);
      groupedThreads := groupedThreads + [t];
      mConversationsCache := mConversationsCache[conversationKey := groupedThreads];
      mConversationsCacheKeys := mConversationsCacheKeys - {threadKey};
      RemoveAbsent(during, threadKey);
      UpdateDisplayedThread(conversationKey);
      ReplaceAfterUpdate(convs, conversationKey, groupedThreads);
      Repaired(convs, before, conversationKey, groupedThreads, during, mConversationsCacheKeys);
    }

    /** A new thread joins a conversation that matches it. */
    method JoinConversation(conversationKey: string, t: Thread)
      requires Valid() && Coherent(mConversationsCache, t) && t.eventType.Text?
      requires Key(t) !in mConversationsCacheKeys && MatchingKeys(phone, mConversationsCache, t) != {}
      requires conversationKey == Least(MatchingKeys(phone, mConversationsCache, t))
      modifies this
      ensures Valid()
      ensures mConversationsCache == Added(phone, old(mConversationsCache), t)
    {
      ghost var convs, before := mConversationsCache, mConversationsCacheKeys;
      var groupedThreads := mConversationsCache[conversationKey];
      JoinFacts(phone, convs, before, t);
      ForgetKeys(groupedThreads);
      ghost var during := mConversationsCacheKeys;
      groupedThreads := groupedThreads + [t];
      mConversationsCache := mConversationsCache[conversationKey := groupedThreads];
      UpdateDisplayedThread(conversationKey);
      ReplaceAfterUpdate(convs, conversationKey, groupedThreads);
      Repaired(convs, before, conversationKey, groupedThreads, during, mConversationsCacheKeys);
    }

    /** A thread on its own. */
    method SetAlone(t: Thread)
      requires Valid() && Coherent(mConversationsCache, t) && t.eventType.Text?
      requires AddedMembers(phone, mConversationsCache, t) == (Key(t), [t])
      modifies this
      ensures Valid()
      ensures mConversationsCache == Added(phone, old(mConversationsCache), t)
    {
      ghost var convs, before := mConversationsCache, mConversationsCacheKeys;
      var threadKey := Key(t);
      mConversationsCache := mConversationsCache[threadKey := [t]];
      mConversationsCacheKeys := mConversationsCacheKeys[threadKey := threadKey];
      AloneRepaired(phone, convs, before, t);
    }

    /** One round of the loop of addThreadsToCache. */
    method AddThread(t: Thread)
      requires Valid()
      requires t.eventType.Text? ==> Coherent(mConversationsCache, t)
      modifies this
      ensures Valid()
      ensures mConversationsCache == Added(phone, old(mConversationsCache), t)
      ensures !t.eventType.Text? ==>
                && mConversationsCache == old(mConversationsCache)
                && mConversationsCacheKeys == old(mConversationsCacheKeys)
    {
      if !t.eventType.Text? {
        return;
      } else if !ShouldGroupThread(t) {
        // not a phone account: a conversation of its own
        UngroupedMembers(phone, mConversationsCache, t);
        SetAlone(t);
        return;
      }
      // cached already: it stays where it is
      if Key(t) in mConversationsCacheKeys {
        UpdateMember(t);
        return;
      }
      // new: look for a conversation with the same participants
      var found, conversationKey := FindConversation(t);
      if found {
        JoinConversation(conversationKey, t);
      } else {
        SetAlone(t);
      }
    }

    /** addThreadsToCache: one after the other, in the order of the list. */
    method AddThreadsToCache(threads: seq<Thread>)
      requires Valid() && AllCoherent(mConversationsCache, threads)
      modifies this
      ensures Valid()
      ensures mConversationsCache == AllAdded(phone, old(mConversationsCache), threads)
    {
      for i := 0 to |threads|
        invariant Valid() && AllCoherent(mConversationsCache, threads[i..])
        invariant AllAdded(phone, old(mConversationsCache), threads)
               == AllAdded(phone, mConversationsCache, threads[i..])
      {
        ghost var rest := threads[i..];
        assert threads[i] == rest[0] && rest[1..] == threads[i + 1..];
        AddedKeepsCoherent(phone, mConversationsCache, rest);
        AddThread(threads[i]);
      }
    }

    /** The search of removeThreadFromCache, in the order of the keys. */
    method FindHolder(t: Thread) returns (found: bool, threadKey: string)
      ensures found ==> threadKey in mConversationsCache && Lists(mConversationsCache[threadKey], t)
      ensures !found ==> forall k :: k in mConversationsCache ==> !Lists(mConversationsCache[k], t)
    {
      found, threadKey := false, [];
      var pending := mConversationsCache.Keys;
      while pending != {}
        invariant !found && pending <= mConversationsCache.Keys
        invariant forall k :: k in mConversationsCache && k !in pending ==> !Lists(mConversationsCache[k], t)
        decreases pending
      {
        threadKey := Least(pending);
        var threads := mConversationsCache[threadKey];
        if Lists(threads, t) {
          found := true;
          break;
        }
        pending := pending - {threadKey};
      }
    }

    /** removeThreadFromCache for a thread that is a conversation's key: promote the next one, if any. */
    method RemoveDisplayed(t: Thread)
      requires Valid() && Coherent(mConversationsCache, t) && Key(t) in mConversationsCache
      modifies this
      ensures Valid()
      ensures mConversationsCache == Removed(old(mConversationsCache), t)
    {
      ghost var convs, before := mConversationsCache, mConversationsCacheKeys;
      var threadKey := Key(t);
      KeyIsHeld(convs, threadKey);
      RemoveFacts(convs, threadKey, t);
      var threads := Without(mConversationsCache[threadKey], t);
      mConversationsCache := mConversationsCache - {threadKey};
      mConversationsCacheKeys := mConversationsCacheKeys - {threadKey};
      // the rest is filed again below, under its new displayed thread
      ForgetKeys(threads);
      ghost var during := mConversationsCacheKeys;
      ForgottenTwice(convs, before, threadKey, t, during);
      if threads != [] {
        MemberKey(convs, threadKey, threads[0]);
        threadKey := Key(threads[0]);
        mConversationsCache := mConversationsCache[threadKey := threads];
        UpdateDisplayedThread(threadKey);
        ReplaceElsewhere(convs, Key(t), threadKey, threads);
        Repaired(convs, before, Key(t), threads, during, mConversationsCacheKeys);
      } else {
        EmptyRepaired(convs, before, Key(t), during);
      }
    }

    /** removeThreadFromCache for a thread that is not displayed. */
    method RemoveMember(t: Thread)
      requires Valid() && Coherent(mConversationsCache, t) && Key(t) !in mConversationsCache
      modifies this
      ensures Valid()
      ensures mConversationsCache == Removed(old(mConversationsCache), t)
    {
      var found, conversationKey := FindHolder(t);
      if found {
        ghost var convs, before := mConversationsCache, mConversationsCacheKeys;
        var threads := mConversationsCache[conversationKey];
        ListsKey(threads, t);
        RemoveFacts(convs, conversationKey, t);
        NotDisplayed(convs, conversationKey, t);
        var threadKey := Key(t);
        RemoveAbsentKey(mConversationsCache, threadKey);
        mConversationsCache := mConversationsCache - {threadKey};
        mConversationsCacheKeys := mConversationsCacheKeys - {threadKey};
        ForgottenOne(before, t);
        ghost var less := mConversationsCacheKeys;
        if |threads| == 1 {
          return;
        } else {
          threads := Without(threads, t);
          var newThreadKey := Key(threads[0]);
          MemberKey(convs, conversationKey, threads[0]);
          mConversationsCache := mConversationsCache[newThreadKey := threads];
          UpdateDisplayedThread(newThreadKey);
          ReplaceInside(convs, conversationKey, newThreadKey, threads);
          MemberRepaired(convs, before, conversationKey, t, less, mConversationsCacheKeys);
        }
      } else {
        NotCached(mConversationsCache, t);
      }
    }

    method RemoveThreadFromCache(t: Thread)
      requires Valid()
      requires t.eventType.Text? ==> Coherent(mConversationsCache, t)
      modifies this
      ensures t.eventType.Text? ==> Valid() && mConversationsCache == Removed(old(mConversationsCache), t)
      ensures !t.eventType.Text? ==>
                && mConversationsCache == old(mConversationsCache) - {Key(t)}
                && mConversationsCacheKeys == old(mConversationsCacheKeys) - {Key(t)}
    {
      var threadKey := Key(t);
      if !t.eventType.Text? || !ShouldGroupThread(t) {
        if t.eventType.Text? {
          UngroupedRemoved(mConversationsCache, mConversationsCacheKeys, t);
        }
        mConversationsCache := mConversationsCache - {threadKey};
        mConversationsCacheKeys := mConversationsCacheKeys - {threadKey};
        return;
      }
      if threadKey in mConversationsCache {
        RemoveDisplayed(t);
      } else {
        RemoveMember(t);
      }
    }

    /** The loop of getSingleThread that looks for the thread asked about. */
    static method FindByKey(groupedThreads: seq<Thread>, threadKey: string) returns (result: Thread)
      requires HasKey(groupedThreads, threadKey)
      ensures result in groupedThreads && Key(result) == threadKey
    {
      result := groupedThreads[0];
      for i := 0 to |groupedThreads|
        invariant result in groupedThreads
        invariant Key(result) == threadKey || forall j :: 0 <= j < i ==> Key(groupedThreads[j]) != threadKey
      {
        if Key(groupedThreads[i]) == threadKey {
          result := groupedThreads[i];
        }
      }
    }

    /** getSingleThread when grouping by participants: the thread and the whole list it is grouped in. */
    method GetSingleThread(t: Thread) returns (answer: Answer)
      requires Valid()
      ensures t.accountId == "" || t.threadId == "" || Key(t) !in mConversationsCacheKeys ==> answer == Unknown
      ensures t.accountId != "" && t.threadId != "" && Key(t) in mConversationsCacheKeys ==>
                && answer.Grouped? && answer.threads == mConversationsCache[mConversationsCacheKeys[Key(t)]]
                && answer.thread in answer.threads && Key(answer.thread) == Key(t)
    {
      if t.accountId == "" || t.threadId == "" {
        return Unknown;
      }
      var threadKey := Key(t);
      if threadKey !in mConversationsCacheKeys {
        return Unknown;
      }
      var groupedThreads := mConversationsCache[mConversationsCacheKeys[threadKey]];
      assert Holds(mConversationsCache, mConversationsCacheKeys[threadKey], threadKey);
      var result := FindByKey(groupedThreads, threadKey);
      return Grouped(result, groupedThreads);
    }
  }
}
