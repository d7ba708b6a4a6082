/** When the order in which threads are added does not matter. */
module ConversationOrder {
  import opened Threads
  import opened Conversations
  import opened CacheRepair
  import opened ConversationRuns
  import opened ConversationPartition
  import opened Permutations
  import Participants

  /** Different text threads that the cache does not know yet. */
  ghost predicate NewTexts(convs: Conversations, ts: seq<Thread>) {
    && (forall t :: t in ts ==> t.eventType.Text? && !Cached(convs, Key(t)))
    && DistinctKeys(ts)
  }

  lemma NewTextsCoherent(convs: Conversations, ts: seq<Thread>)
    requires NewTexts(convs, ts)
    ensures AllCoherent(convs, ts)
  {
    forall t, k, u | t in ts && k in convs && u in convs[k] ensures Agree(u, t) {
      assert Holds(convs, k, Key(u));
    }
  }

  lemma AfterFirst(phone: (string, string) -> bool, convs: Conversations, ts: seq<Thread>)
    requires Wf(convs) && ts != [] && NewTexts(convs, ts)
    ensures Coherent(convs, ts[0])
    ensures Wf(Added(phone, convs, ts[0]))
    ensures NewTexts(Added(phone, convs, ts[0]), ts[1..])
  {
    NewTextsCoherent(convs, ts);
    AddedOk(phone, convs, ts[0]);
    forall t | t in ts[1..] ensures t.eventType.Text? && !Cached(Added(phone, convs, ts[0]), Key(t)) {
      assert t in ts && Key(t) != Key(ts[0]);
    }
  }

  lemma {:induction false} AllAddedContent(phone: (string, string) -> bool, convs: Conversations, ts: seq<Thread>)
    requires Wf(convs) && NewTexts(convs, ts)
    ensures Wf(AllAdded(phone, convs, ts))
    ensures forall u :: InCache(AllAdded(phone, convs, ts), u) <==> InCache(convs, u) || u in ts
    decreases |ts|
  {
    if ts != [] {
      AfterFirst(phone, convs, ts);
      AllAddedContent(phone, Added(phone, convs, ts[0]), ts[1..]);
      forall u ensures InCache(AllAdded(phone, convs, ts), u) <==> InCache(convs, u) || u in ts {
        NewContent(phone, convs, ts[0], u);
        assert u in ts <==> u == ts[0] || u in ts[1..];
      }
    }
  }

  lemma NewContent(phone: (string, string) -> bool, convs: Conversations, t: Thread, u: Thread)
    requires Wf(convs) && t.eventType.Text? && !Cached(convs, Key(t)) && Coherent(convs, t)
    ensures InCache(Added(phone, convs, t), u) <==> InCache(convs, u) || u == t
  {
    AddedContent(phone, convs, t, u);
    if k :| k in convs && u in convs[k] { assert Holds(convs, k, Key(u)); }
  }

  lemma {:induction false} AllAddedPartition(phone: (string, string) -> bool, convs: Conversations, ts: seq<Thread>,
                                             universe: set<Thread>)
    requires Wf(convs) && NewTexts(convs, ts) && Within(convs, universe) && IsPartition(phone, convs)
    requires (forall t :: t in ts ==> t in universe) && Steady(universe) && MatchingIsEquivalence(phone, universe)
    ensures IsPartition(phone, AllAdded(phone, convs, ts))
    decreases |ts|
  {
    if ts != [] {
      AfterFirst(phone, convs, ts);
      AddedPartition(phone, convs, ts[0], universe);
      AllAddedPartition(phone, Added(phone, convs, ts[0]), ts[1..], universe);
    }
  }

  /** Later additions never bring two cached threads together or apart. */
  lemma {:induction false} TogetherStays(phone: (string, string) -> bool, convs: Conversations, ts: seq<Thread>,
                                         x: string, y: string)
    requires Wf(convs) && NewTexts(convs, ts) && Cached(convs, x) && Cached(convs, y) && x != y
    ensures Together(AllAdded(phone, convs, ts), x, y) <==> Together(convs, x, y)
    decreases |ts|
  {
    if ts != [] {
      AfterFirst(phone, convs, ts);
      TogetherAfterAdd(phone, convs, ts[0], x, y);
      assert ts[0] in ts;
      AddedOk(phone, convs, ts[0]);
      TogetherStays(phone, Added(phone, convs, ts[0]), ts[1..], x, y);
    }
  }

  /** Two orders of adding group the threads alike. */
  ghost predicate SameGrouping(phone: (string, string) -> bool, p: seq<Thread>, q: seq<Thread>) {
    forall a, b :: a in q && b in q ==>
      (Together(AllAdded(phone, map[], p), Key(a), Key(b)) <==> Together(AllAdded(phone, map[], q), Key(a), Key(b)))
  }

  lemma PermutedTexts(p: seq<Thread>, ts: seq<Thread>)
    requires NewTexts(map[], ts) && Permutation(p, ts)
    ensures NewTexts(map[], p) && forall t :: t in p <==> t in ts
  {
    PermutationElements(p, ts);
    PermutationDistinct(p, ts);
    forall i, j | 0 <= i < j < |p| ensures Key(p[i]) != Key(p[j]) {
      assert p[i] in ts && p[j] in ts;
      var a, b :| 0 <= a < |ts| && 0 <= b < |ts| && ts[a] == p[i] && ts[b] == p[j];
      assert a != b;
    }
  }

  lemma DistinctIsSteady(ts: seq<Thread>)
    requires DistinctKeys(ts)
    ensures forall a, b :: a in ts && b in ts && Key(a) == Key(b) ==> a == b
    ensures Steady(set t | t in ts)
  {
    forall a, b | a in ts && b in ts && Key(a) == Key(b) ensures a == b {
      var i, j :| 0 <= i < |ts| && 0 <= j < |ts| && ts[i] == a && ts[j] == b;
    }
  }

  /** With an equivalence the conversations are the classes of matching threads, whatever the order. */
  lemma GroupingIsMatching(phone: (string, string) -> bool, ts: seq<Thread>, a: Thread, b: Thread)
    requires NewTexts(map[], ts) && MatchingIsEquivalence(phone, set t | t in ts) && a in ts && b in ts
    ensures Together(AllAdded(phone, map[], ts), Key(a), Key(b)) <==> a == b || Matches(phone, a, b)
  {
    var after := AllAdded(phone, map[], ts);
    DistinctIsSteady(ts);
    AllAddedContent(phone, map[], ts);
    AllAddedPartition(phone, map[], ts, set t | t in ts);
    assert InCache(after, a) && InCache(after, b);
    if a == b {
      var k :| k in after && a in after[k];
      assert Holds(after, k, Key(a));
    } else {
      assert Key(a) != Key(b);
    }
  }

  // ---------------------------------------------------------------- the first few additions

  /** Where a thread goes when the cache holds a single conversation. */
  lemma AddToOne(phone: (string, string) -> bool, convs: Conversations, k: string, t: Thread, x: string)
    requires Wf(convs) && convs.Keys == {k} && t.eventType.Text? && !Cached(convs, Key(t))
    requires Holds(convs, k, x)
    ensures Together(Added(phone, convs, t), x, Key(t)) <==> exists m :: m in convs[k] && Matches(phone, t, m)
    ensures (exists m :: m in convs[k] && Matches(phone, t, m)) ==>
              Added(phone, convs, t) == Replace(convs, k, convs[k] + [t])
  {
    forall j, u | j in convs && u in convs[j] ensures Agree(u, t) {
      assert Holds(convs, j, Key(u));
    }
    TogetherAfterAdd(phone, convs, t, x, Key(t));
    assert MatchingKeys(phone, convs, t) <= {k};
    if exists m :: m in convs[k] && Matches(phone, t, m) {
      assert k in MatchingKeys(phone, convs, t);
    } else {
      assert MatchingKeys(phone, convs, t) == {};
      if Key(t) in convs { KeyIsHeld(convs, Key(t)); }
    }
  }

  lemma FirstOne(phone: (string, string) -> bool, a: Thread)
    requires a.eventType.Text?
    ensures Added(phone, map[], a) == map[Key(a) := [a]]
    ensures Wf(map[Key(a) := [a]]) && Holds(map[Key(a) := [a]], Key(a), Key(a))
    ensures forall x :: Cached(map[Key(a) := [a]], x) <==> x == Key(a)
  {
    AddedOk(phone, map[], a);
    assert !Cached(map[], Key(a));
    assert MatchingKeys(phone, map[], a) == {};
    KeyIsHeld(map[Key(a) := [a]], Key(a));
  }

  lemma AllAddedCons(phone: (string, string) -> bool, convs: Conversations, t: Thread, rest: seq<Thread>)
    ensures AllAdded(phone, convs, [t] + rest) == AllAdded(phone, Added(phone, convs, t), rest)
  {
    assert ([t] + rest)[1..] == rest;
  }

  lemma OneMore(phone: (string, string) -> bool, convs: Conversations, t: Thread, rest: seq<Thread>)
    requires Wf(convs) && NewTexts(convs, [t] + rest)
    ensures AllAdded(phone, convs, [t] + rest) == AllAdded(phone, Added(phone, convs, t), rest)
    ensures Coherent(convs, t) && !Cached(convs, Key(t)) && t.eventType.Text?
    ensures Wf(Added(phone, convs, t)) && NewTexts(Added(phone, convs, t), rest)
    ensures forall x :: Cached(Added(phone, convs, t), x) <==> Cached(convs, x) || x == Key(t)
  {
    var ts := [t] + rest;
    AllAddedCons(phone, convs, t, rest);
    assert ts[0] == t && t in ts && ts[1..] == rest;
    AfterFirst(phone, convs, ts);
    AddedOk(phone, convs, t);
  }

  /** The second thread joins the first exactly when it matches it. */
  lemma FirstTwo(phone: (string, string) -> bool, a: Thread, b: Thread)
    requires a.eventType.Text? && b.eventType.Text? && Key(a) != Key(b)
    ensures var two := Added(phone, map[Key(a) := [a]], b);
            && (Together(two, Key(a), Key(b)) <==> Matches(phone, b, a))
            && (Matches(phone, b, a) ==> two == map[Key(Latest([a, b])) := [a, b]])
  {
    FirstOne(phone, a);
    var one := map[Key(a) := [a]];
    AddToOne(phone, one, Key(a), b, Key(a));
    assert one[Key(a)] == [a];
    assert [a] + [b] == [a, b];
    if Matches(phone, b, a) {
      assert a in one[Key(a)];
      assert Replace(one, Key(a), [a, b]) == map[Key(Latest([a, b])) := [a, b]];
    }
  }

  /**
   * Two text threads of one phone account, without participants, share a conversation. Removing the voice thread with
   * the ids of the displayed one drops the whole conversation, and leaves the other thread's key behind.
   */
  lemma VoiceRemovalDropsConversation(phone: (string, string) -> bool, name: string, s: string, t: string)
    requires s != t
    ensures var account := "ofono/ofono/" + name;
            var a := Thread(Text, account, s, Contact, [], 0, 0, 0);
            var b := Thread(Text, account, t, Contact, [], 1, 0, 0);
            var v := Thread(Voice, account, t, Contact, [], 0, 0, 0);
            var convs, keys := map[Key(b) := [a, b]], map[Key(a) := Key(b), Key(b) := Key(b)];
            && convs == Added(phone, Added(phone, map[], a), b) && Wf(convs) && Indexes(keys, convs)
            && Key(v) == Key(b) && !SameThread(v, b)
            && convs - {Key(v)} == map[] && keys - {Key(v)} == map[Key(a) := Key(b)]
            && !Indexes(keys - {Key(v)}, convs - {Key(v)})
  {
    var account := "ofono/ofono/" + name;
    var a := Thread(Text, account, s, Contact, [], 0, 0, 0);
    var b := Thread(Text, account, t, Contact, [], 1, 0, 0);
    SameAccountKeys(a, b);
    SplitOfono(name);
    PairConversation(phone, a, b);
    PairDropped(a, b);
  }

  /**
   * Two multimedia threads share a conversation, and the one that is not displayed comes back as a room: it gets a
   * conversation of its own and stays in the old one too.
   */
  lemma RoomUpdateBreaksMaps(phone: (string, string) -> bool, name: string, s: string, t: string)
    requires s != t
    ensures var account := "multimedia/multimedia/" + name;
            var a := Thread(Text, account, s, Contact, [], 0, 0, 0);
            var b := Thread(Text, account, t, Contact, [], 1, 0, 0);
            var room := a.(chatType := Room);
            var convs, keys := map[Key(b) := [a, b]], map[Key(a) := Key(b), Key(b) := Key(b)];
            && convs == Added(phone, Added(phone, map[], a), b) && Wf(convs) && Indexes(keys, convs)
            && !ShouldGroupThread(room) && !Wf(convs[Key(room) := [room]])
  {
    var account := "multimedia/multimedia/" + name;
    var a := Thread(Text, account, s, Contact, [], 0, 0, 0);
    var b := Thread(Text, account, t, Contact, [], 1, 0, 0);
    SameAccountKeys(a, b);
    SplitMultimedia(name);
    PairConversation(phone, a, b);
    PairDropped(a, b);
    ListedInTwo(a, b, a.(chatType := Room));
  }

  lemma ListedInTwo(a: Thread, b: Thread, room: Thread)
    requires Key(a) != Key(b) && Key(room) == Key(a)
    ensures !Wf(map[Key(b) := [a, b]][Key(room) := [room]])
  {
    var after: Conversations := map[Key(b) := [a, b]][Key(room) := [room]];
    assert after[Key(b)][0] == a && after[Key(room)][0] == room;
    assert Holds(after, Key(b), Key(a)) && Holds(after, Key(room), Key(a));
  }

  lemma PairConversation(phone: (string, string) -> bool, a: Thread, b: Thread)
    requires a.eventType.Text? && b.eventType.Text? && Key(a) != Key(b)
    requires Matches(phone, b, a) && a.timestamp < b.timestamp
    ensures map[Key(b) := [a, b]] == Added(phone, Added(phone, map[], a), b) && Wf(map[Key(b) := [a, b]])
  {
    FirstTwo(phone, a, b);
    FirstOne(phone, a);
    var one := map[Key(a) := [a]];
    forall j, u | j in one && u in one[j] ensures Agree(u, b) {
    }
    AddedOk(phone, one, b);
    assert Latest([a, b]) == b;
  }

  lemma PairDropped(a: Thread, b: Thread)
    requires Key(a) != Key(b)
    ensures var convs, keys := map[Key(b) := [a, b]], map[Key(a) := Key(b), Key(b) := Key(b)];
            && Indexes(keys, convs) && convs - {Key(b)} == map[] && keys - {Key(b)} == map[Key(a) := Key(b)]
            && !Indexes(keys - {Key(b)}, convs - {Key(b)})
  {
    var convs: Conversations := map[Key(b) := [a, b]];
    assert convs[Key(b)][0] == a && convs[Key(b)][1] == b;
    assert Holds(convs, Key(b), Key(a)) && Holds(convs, Key(b), Key(b));
    assert !Holds(map[], Key(b), Key(a));
  }

  lemma FirstThree(phone: (string, string) -> bool, a: Thread, b: Thread, c: Thread)
    requires var two := Added(phone, map[Key(a) := [a]], b); Wf(two) && !Cached(two, Key(c))
    requires a.eventType.Text? && b.eventType.Text? && c.eventType.Text? && Different(a, b, c)
    requires Matches(phone, b, a) && Matches(phone, c, b)
    ensures Together(Added(phone, Added(phone, map[Key(a) := [a]], b), c), Key(a), Key(c))
  {
    FirstTwo(phone, a, b);
    var k := Key(Latest([a, b]));
    var two := map[k := [a, b]];
    assert two[k] == [a, b] && a in two[k] && b in two[k];
    AddToOne(phone, two, k, c, Key(a));
  }

  lemma TogetherFirstTwo(phone: (string, string) -> bool, a: Thread, b: Thread, rest: seq<Thread>)
    requires NewTexts(map[], [a] + ([b] + rest))
    ensures Key(a) != Key(b)
    ensures Together(AllAdded(phone, map[], [a] + ([b] + rest)), Key(a), Key(b)) <==> Matches(phone, b, a)
  {
    OneMore(phone, map[], a, [b] + rest);
    FirstOne(phone, a);
    var one := map[Key(a) := [a]];
    OneMore(phone, one, b, rest);
    assert Cached(one, Key(a));
    FirstTwo(phone, a, b);
    TogetherStays(phone, Added(phone, one, b), rest, Key(a), Key(b));
  }

  lemma TogetherFirstThree(phone: (string, string) -> bool, a: Thread, b: Thread, c: Thread, rest: seq<Thread>)
    requires NewTexts(map[], [a] + ([b] + ([c] + rest))) && Different(a, b, c)
    requires Matches(phone, b, a) && Matches(phone, c, b)
    ensures Together(AllAdded(phone, map[], [a] + ([b] + ([c] + rest))), Key(a), Key(c))
  {
    OneMore(phone, map[], a, [b] + ([c] + rest));
    FirstOne(phone, a);
    var one := map[Key(a) := [a]];
    OneMore(phone, one, b, [c] + rest);
    var two := Added(phone, one, b);
    OneMore(phone, two, c, rest);
    FirstThree(phone, a, b, c);
    TogetherStays(phone, Added(phone, two, c), rest, Key(a), Key(c));
  }

  // ---------------------------------------------------------------- the exact condition

  ghost predicate OrderIndependent(phone: (string, string) -> bool, ts: seq<Thread>) {
    forall p :: Permutation(p, ts) ==> SameGrouping(phone, p, ts)
  }

  lemma GroupedAlike(phone: (string, string) -> bool, ts: seq<Thread>, p: seq<Thread>, q: seq<Thread>, a: Thread,
                     b: Thread)
    requires OrderIndependent(phone, ts) && Permutation(p, ts) && Permutation(q, ts) && a in ts && b in ts
    ensures Together(AllAdded(phone, map[], p), Key(a), Key(b)) <==> Together(AllAdded(phone, map[], q), Key(a), Key(b))
  {
    assert SameGrouping(phone, p, ts) && SameGrouping(phone, q, ts);
  }

  lemma SecondAndFirst(phone: (string, string) -> bool, ts: seq<Thread>, a: Thread, b: Thread, rest: seq<Thread>)
    requires NewTexts(map[], ts) && Permutation([a] + ([b] + rest), ts)
    ensures Together(AllAdded(phone, map[], [a] + ([b] + rest)), Key(a), Key(b)) <==> Matches(phone, b, a)
  {
    PermutedTexts([a] + ([b] + rest), ts);
    TogetherFirstTwo(phone, a, b, rest);
  }

  lemma TogetherSymmetric(convs: Conversations, x: string, y: string)
    ensures Together(convs, x, y) <==> Together(convs, y, x)
  {
  }

  lemma OrderIndependentNeedsSymmetry(phone: (string, string) -> bool, ts: seq<Thread>, a: Thread, b: Thread)
    requires NewTexts(map[], ts) && OrderIndependent(phone, ts)
    requires a in ts && b in ts && a != b
    ensures Matches(phone, a, b) <==> Matches(phone, b, a)
  {
    var rest := TwoForward(ts, a, b);
    var p, q := [a] + ([b] + rest), [b] + ([a] + rest);
    SecondAndFirst(phone, ts, a, b, rest);
    SecondAndFirst(phone, ts, b, a, rest);
    GroupedAlike(phone, ts, p, q, a, b);
    TogetherSymmetric(AllAdded(phone, map[], q), Key(a), Key(b));
  }

  lemma ThirdAndFirst(phone: (string, string) -> bool, ts: seq<Thread>, a: Thread, b: Thread, c: Thread,
                      rest: seq<Thread>)
    requires NewTexts(map[], ts) && Permutation([a] + ([b] + ([c] + rest)), ts) && Different(a, b, c)
    requires Matches(phone, b, a) && Matches(phone, c, b)
    ensures Together(AllAdded(phone, map[], [a] + ([b] + ([c] + rest))), Key(a), Key(c))
  {
    PermutedTexts([a] + ([b] + ([c] + rest)), ts);
    TogetherFirstThree(phone, a, b, c, rest);
  }

  lemma OrderIndependentNeedsTransitivity(phone: (string, string) -> bool, ts: seq<Thread>, a: Thread, b: Thread,
                                          c: Thread)
    requires NewTexts(map[], ts) && OrderIndependent(phone, ts)
    requires a in ts && b in ts && c in ts && Different(a, b, c) && Matches(phone, a, b) && Matches(phone, b, c)
    ensures Matches(phone, a, c)
  {
    OrderIndependentNeedsSymmetry(phone, ts, a, b);
    OrderIndependentNeedsSymmetry(phone, ts, b, c);
    OrderIndependentNeedsSymmetry(phone, ts, a, c);
    var rest := ThreeForward(ts, a, b, c);
    var p, q := [a] + ([b] + ([c] + rest)), [a] + ([c] + ([b] + rest));
    ThirdAndFirst(phone, ts, a, b, c, rest);
    SecondAndFirst(phone, ts, a, c, [b] + rest);
    GroupedAlike(phone, ts, p, q, a, c);
  }

  /**
   * Adding the same new threads in any order gives the same conversations exactly when matching is
   * an equivalence on them.
   */
  lemma OrderIndependentExactlyForEquivalence(phone: (string, string) -> bool, ts: seq<Thread>)
    requires NewTexts(map[], ts)
    ensures OrderIndependent(phone, ts) <==> MatchingIsEquivalence(phone, set t | t in ts)
  {
    if MatchingIsEquivalence(phone, set t | t in ts) {
      forall p | Permutation(p, ts) ensures SameGrouping(phone, p, ts) {
        PermutedTexts(p, ts);
        assert (set t | t in p) == (set t | t in ts);
        forall a, b | a in ts && b in ts
          ensures Together(AllAdded(phone, map[], p), Key(a), Key(b)) <==>
                    Together(AllAdded(phone, map[], ts), Key(a), Key(b))
        {
          GroupingIsMatching(phone, p, a, b);
          GroupingIsMatching(phone, ts, a, b);
        }
      }
    }
    if OrderIndependent(phone, ts) {
      forall a, b | a in ts && b in ts && Matches(phone, a, b) ensures Matches(phone, b, a) {
        if a != b { OrderIndependentNeedsSymmetry(phone, ts, a, b); }
      }
      forall a, b, c
        | a in ts && b in ts && c in ts && Different(a, b, c) && Matches(phone, a, b) && Matches(phone, b, c)
        ensures Matches(phone, a, c)
      {
        OrderIndependentNeedsTransitivity(phone, ts, a, b, c);
      }
    }
  }

  /**
   * Three threads of a phone account, one with a local number and two with full numbers that it matches and that do
   * not match each other: which of them share a conversation depends on the order of loading.
   */
  lemma LocalNumberMakesOrderMatter(phone: (string, string) -> bool, name: string, l: string, a: string, b: string)
    requires Participants.LocalNumber(phone, l, a, b)
    ensures var account := "ofono/ofono/" + name;
            var ts := [Thread(Text, account, "1", Contact, [a], 0, 0, 0),
                       Thread(Text, account, "2", Contact, [l], 0, 0, 0),
                       Thread(Text, account, "3", Contact, [b], 0, 0, 0)];
            NewTexts(map[], ts) && !OrderIndependent(phone, ts)
  {
    var account := "ofono/ofono/" + name;
    var t, u, v := Thread(Text, account, "1", Contact, [a], 0, 0, 0), Thread(Text, account, "2", Contact, [l], 0, 0, 0),
                   Thread(Text, account, "3", Contact, [b], 0, 0, 0);
    SplitOfono(name);
    assert "1"[0] != "2"[0] && "2"[0] != "3"[0] && "1"[0] != "3"[0];
    SameAccountKeys(t, u);
    SameAccountKeys(u, v);
    SameAccountKeys(t, v);
    Participants.OneNameMatches(phone, l, a);
    Participants.OneNameMatches(phone, b, l);
    Participants.OneNameMatches(phone, b, a);
    MatchesNotThrough(phone, t, u, v);
  }

  lemma MatchesNotThrough(phone: (string, string) -> bool, t: Thread, u: Thread, v: Thread)
    requires t.eventType.Text? && u.eventType.Text? && v.eventType.Text? && Different(t, u, v)
    requires Matches(phone, t, u) && Matches(phone, u, v) && !Matches(phone, t, v)
    ensures NewTexts(map[], [t, u, v]) && !OrderIndependent(phone, [t, u, v])
  {
    var ts := [t, u, v];
    assert ts[0] == t && ts[1] == u && ts[2] == v;
    assert t in (set x | x in ts) && u in (set x | x in ts) && v in (set x | x in ts);
    OrderIndependentExactlyForEquivalence(phone, ts);
  }

  /** If the timestamps differ too, every order files the same conversations under the same keys. */
  lemma SameKeysInAnyOrder(phone: (string, string) -> bool, ts: seq<Thread>, p: seq<Thread>, k: string)
    requires NewTexts(map[], ts) && MatchingIsEquivalence(phone, set t | t in ts) && Permutation(p, ts)
    requires forall a, b :: a in ts && b in ts && a.timestamp == b.timestamp ==> a == b
    ensures k in AllAdded(phone, map[], p) <==> k in AllAdded(phone, map[], ts)
    ensures k in AllAdded(phone, map[], p) ==>
              forall u :: u in AllAdded(phone, map[], p)[k] <==> u in AllAdded(phone, map[], ts)[k]
  {
    PermutedTexts(p, ts);
    DistinctIsSteady(ts);
    LoadedTimes(phone, ts);
    OrdersKeepCompany(phone, ts, p, set t | t in ts);
    SameConversations(AllAdded(phone, map[], ts), AllAdded(phone, map[], p), k);
  }

  lemma LoadedTimes(phone: (string, string) -> bool, p: seq<Thread>)
    requires NewTexts(map[], p) && forall a, b :: a in p && b in p && a.timestamp == b.timestamp ==> a == b
    ensures Wf(AllAdded(phone, map[], p)) && DifferentTimes(AllAdded(phone, map[], p))
  {
    AllAddedContent(phone, map[], p);
  }

  lemma OrdersKeepCompany(phone: (string, string) -> bool, p: seq<Thread>, q: seq<Thread>, universe: set<Thread>)
    requires NewTexts(map[], p) && NewTexts(map[], q) && forall t :: t in p <==> t in q
    requires MatchingIsEquivalence(phone, universe) && Steady(universe) && forall t :: t in p ==> t in universe
    ensures Wf(AllAdded(phone, map[], q)) && SameCompany(AllAdded(phone, map[], p), AllAdded(phone, map[], q))
  {
    LoadedIsPartition(phone, p, universe);
    LoadedIsPartition(phone, q, universe);
    PartitionsAgree(phone, AllAdded(phone, map[], p), AllAdded(phone, map[], q));
  }

  lemma LoadedIsPartition(phone: (string, string) -> bool, ts: seq<Thread>, universe: set<Thread>)
    requires NewTexts(map[], ts) && forall t :: t in ts ==> t in universe
    requires MatchingIsEquivalence(phone, universe) && Steady(universe)
    ensures Wf(AllAdded(phone, map[], ts)) && IsPartition(phone, AllAdded(phone, map[], ts))
    ensures forall u :: InCache(AllAdded(phone, map[], ts), u) <==> u in ts
  {
    AllAddedContent(phone, map[], ts);
    AllAddedPartition(phone, map[], ts, universe);
  }
}
