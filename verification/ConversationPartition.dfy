/** The cache is the partition of the grouped threads by matching participants, and when that depends on the order. */
module ConversationPartition {
  import opened Strings
  import opened Threads
  import opened Conversations
  import opened CacheRepair
  import opened ConversationRuns
  import Participants

  /** The threads with keys x and y are in one conversation. */
  ghost predicate Together(convs: Conversations, x: string, y: string) {
    exists k :: Holds(convs, k, x) && Holds(convs, k, y)
  }

  ghost predicate Different(a: Thread, b: Thread, c: Thread) {
    Key(a) != Key(b) && Key(b) != Key(c) && Key(a) != Key(c)
  }

  /** Matching is symmetric and, over three different threads, transitive. */
  ghost predicate MatchingIsEquivalence(phone: (string, string) -> bool, universe: set<Thread>) {
    && (forall a, b :: a in universe && b in universe && Matches(phone, a, b) ==> Matches(phone, b, a))
    && (forall a, b, c :: (a in universe && b in universe && c in universe && Different(a, b, c)
                           && Matches(phone, a, b) && Matches(phone, b, c)) ==> Matches(phone, a, c))
  }

  /** Over time a thread may change, but not its identity, chat type or participants. */
  ghost predicate Steady(universe: set<Thread>) {
    forall a, b :: a in universe && b in universe && Key(a) == Key(b) ==>
                    SameKind(a, b) && a.chatType == b.chatType && a.participants == b.participants
  }

  /** Two cached threads share a conversation exactly when they match. */
  ghost predicate IsPartition(phone: (string, string) -> bool, convs: Conversations) {
    forall u, v :: InCache(convs, u) && InCache(convs, v) && Key(u) != Key(v) ==>
                     (Together(convs, Key(u), Key(v)) <==> Matches(phone, u, v))
  }

  ghost predicate Within(convs: Conversations, universe: set<Thread>) {
    forall u :: InCache(convs, u) ==> u in universe
  }

  lemma TogetherReplace(convs: Conversations, k: string, members: seq<Thread>, x: string, y: string)
    requires Wf(convs)
    requires forall j, x :: HasKey(members, x) && Holds(convs, j, x) ==> j == k
    ensures Together(Replace(convs, k, members), x, y) <==>
              (HasKey(members, x) && HasKey(members, y))
              || (Together(convs, x, y) && !Holds(convs, k, x) && !Holds(convs, k, y))
  {
    var after := Replace(convs, k, members);
    if members != [] {
      var d := Key(Latest(members));
      assert HasKey(members, d);
      if d in convs { KeyIsHeld(convs, d); }
      ReplaceHolds(convs, k, members, d, x);
      ReplaceHolds(convs, k, members, d, y);
    }
    if j :| Holds(after, j, x) && Holds(after, j, y) {
      ReplaceHolds(convs, k, members, j, x);
      ReplaceHolds(convs, k, members, j, y);
    }
    if j :| Holds(convs, j, x) && Holds(convs, j, y) && j != k {
      ReplaceHolds(convs, k, members, j, x);
      ReplaceHolds(convs, k, members, j, y);
    }
  }

  // ---------------------------------------------------------------- one step

  /** What one addition does to who is together with whom. */
  lemma TogetherAfterAdd(phone: (string, string) -> bool, convs: Conversations, t: Thread, x: string, y: string)
    requires Wf(convs) && t.eventType.Text? && Coherent(convs, t)
    requires x != y
    ensures var (k, members) := AddedMembers(phone, convs, t);
            Together(Added(phone, convs, t), x, y) <==>
              Together(convs, x, y) || (x == Key(t) && Holds(convs, k, y)) || (y == Key(t) && Holds(convs, k, x))
  {
    var (k, members) := AddedMembers(phone, convs, t);
    AddedMembersOk(phone, convs, t);
    TogetherReplace(convs, k, members, x, y);
    if Cached(convs, Key(t)) && (x == Key(t) || y == Key(t)) { assert Holds(convs, k, Key(t)); }
  }

  /** A new thread goes with exactly the threads that match it. */
  lemma NewThreadPartition(phone: (string, string) -> bool, convs: Conversations, t: Thread, v: Thread,
                           universe: set<Thread>)
    requires Wf(convs) && t.eventType.Text? && Coherent(convs, t) && !Cached(convs, Key(t))
    requires Within(convs, universe) && t in universe && MatchingIsEquivalence(phone, universe)
    requires IsPartition(phone, convs) && InCache(convs, v)
    ensures Holds(convs, AddedMembers(phone, convs, t).0, Key(v)) <==> Matches(phone, t, v)
  {
    var (k, members) := AddedMembers(phone, convs, t);
    var h :| h in convs && v in convs[h];
    assert Holds(convs, h, Key(v));
    assert Key(v) != Key(t);
    if MatchingKeys(phone, convs, t) == {} {
      if k in convs { KeyIsHeld(convs, k); }
      assert Matches(phone, t, v) ==> h in MatchingKeys(phone, convs, t);
    } else {
      var m :| m in convs[k] && Matches(phone, t, m);
      assert InCache(convs, m) && Holds(convs, k, Key(m));
      if Key(m) == Key(v) {
        SameKeySameThread(convs, k, m, v);
      } else {
        assert Key(m) != Key(t);
        MatchesThrough(phone, universe, t, m, v);
        assert Together(convs, Key(m), Key(v)) <==> Matches(phone, m, v);
        assert Holds(convs, k, Key(v)) <==> Together(convs, Key(m), Key(v));
      }
    }
  }

  lemma MatchesThrough(phone: (string, string) -> bool, universe: set<Thread>, t: Thread, m: Thread, v: Thread)
    requires MatchingIsEquivalence(phone, universe) && t in universe && m in universe && v in universe
    requires Different(t, m, v) && Matches(phone, t, m)
    ensures Matches(phone, m, v) <==> Matches(phone, t, v)
  {
    assert Matches(phone, m, t);
  }

  lemma SameKeySameThread(convs: Conversations, k: string, u: Thread, v: Thread)
    requires Wf(convs) && k in convs && u in convs[k] && InCache(convs, v) && Key(u) == Key(v)
    ensures u == v
  {
    var h :| h in convs && v in convs[h];
    assert Holds(convs, h, Key(v)) && Holds(convs, k, Key(v));
    DistinctKeysSame(convs[k], u, v);
  }

  lemma DistinctKeysSame(members: seq<Thread>, u: Thread, v: Thread)
    requires DistinctKeys(members) && u in members && v in members && Key(u) == Key(v)
    ensures u == v
  {
    var i, j :| 0 <= i < |members| && 0 <= j < |members| && members[i] == u && members[j] == v;
    assert i < j || j < i || i == j;
  }

  lemma SteadyMatches(phone: (string, string) -> bool, universe: set<Thread>, a: Thread, b: Thread, v: Thread)
    requires Steady(universe) && a in universe && b in universe && Key(a) == Key(b)
    ensures Matches(phone, a, v) == Matches(phone, b, v) && Matches(phone, v, a) == Matches(phone, v, b)
  {
    assert ShouldGroupThread(a) == ShouldGroupThread(b);
  }

  /** After an addition the thread added is together with exactly the others that match it. */
  lemma AddedGoesWhereItMatches(phone: (string, string) -> bool, convs: Conversations, t: Thread, v: Thread,
                                universe: set<Thread>)
    requires Wf(convs) && t.eventType.Text? && Coherent(convs, t)
    requires Within(convs, universe) && t in universe && MatchingIsEquivalence(phone, universe) && Steady(universe)
    requires IsPartition(phone, convs) && InCache(convs, v) && Key(v) != Key(t)
    ensures Together(Added(phone, convs, t), Key(t), Key(v)) <==> Matches(phone, t, v)
    ensures Together(Added(phone, convs, t), Key(v), Key(t)) <==> Matches(phone, v, t)
  {
    var (k, members) := AddedMembers(phone, convs, t);
    TogetherAfterAdd(phone, convs, t, Key(t), Key(v));
    TogetherAfterAdd(phone, convs, t, Key(v), Key(t));
    assert Matches(phone, t, v) == Matches(phone, v, t);
    if Cached(convs, Key(t)) {
      assert Holds(convs, k, Key(t));
      var t0 :| t0 in convs[k] && Key(t0) == Key(t);
      assert InCache(convs, t0);
      SteadyMatches(phone, universe, t, t0, v);
    } else {
      NewThreadPartition(phone, convs, t, v, universe);
    }
  }

  lemma AddedPartition(phone: (string, string) -> bool, convs: Conversations, t: Thread, universe: set<Thread>)
    requires Wf(convs) && t.eventType.Text? && Coherent(convs, t)
    requires Within(convs, universe) && t in universe && MatchingIsEquivalence(phone, universe) && Steady(universe)
    requires IsPartition(phone, convs)
    ensures IsPartition(phone, Added(phone, convs, t)) && Within(Added(phone, convs, t), universe)
  {
    var after := Added(phone, convs, t);
    forall u | InCache(after, u) ensures u == t || (InCache(convs, u) && Key(u) != Key(t)) {
      AddedContent(phone, convs, t, u);
    }
    forall u, v | InCache(after, u) && InCache(after, v) && Key(u) != Key(v)
      ensures Together(after, Key(u), Key(v)) <==> Matches(phone, u, v)
    {
      if u == t {
        AddedGoesWhereItMatches(phone, convs, t, v, universe);
      } else if v == t {
        AddedGoesWhereItMatches(phone, convs, t, u, universe);
      } else {
        TogetherAfterAdd(phone, convs, t, Key(u), Key(v));
      }
    }
  }

  lemma RemovedPartition(phone: (string, string) -> bool, convs: Conversations, t: Thread, universe: set<Thread>)
    requires Wf(convs) && Coherent(convs, t) && Within(convs, universe) && IsPartition(phone, convs)
    ensures IsPartition(phone, Removed(convs, t)) && Within(Removed(convs, t), universe)
  {
    var after := Removed(convs, t);
    forall u | InCache(after, u) ensures InCache(convs, u) && Key(u) != Key(t) {
      RemovedContent(convs, t, u);
    }
    forall u, v | InCache(after, u) && InCache(after, v) && Key(u) != Key(v)
      ensures Together(after, Key(u), Key(v)) <==> Matches(phone, u, v)
    {
      RemovedTogether(convs, t, Key(u), Key(v));
    }
  }

  lemma RemovedTogether(convs: Conversations, t: Thread, x: string, y: string)
    requires Wf(convs) && Coherent(convs, t) && x != Key(t) && y != Key(t)
    ensures Together(Removed(convs, t), x, y) <==> Together(convs, x, y)
  {
    if Cached(convs, Key(t)) {
      var k := Home(convs, Key(t));
      var rest := Without(convs[k], t);
      RemoveFacts(convs, k, t);
      TogetherReplace(convs, k, rest, x, y);
      assert HasKey(rest, x) <==> Holds(convs, k, x);
      assert HasKey(rest, y) <==> Holds(convs, k, y);
    }
  }

  // ---------------------------------------------------------------- whole runs

  ghost function Mentioned(ops: seq<Op>): set<Thread> {
    set i | 0 <= i < |ops| :: ops[i].thread
  }

  /**
   * After every run of additions, updates and removals two cached threads share a conversation
   * exactly when they match, provided matching is an equivalence on the threads of the run.
   */
  lemma {:induction false} RunIsPartition(phone: (string, string) -> bool, ops: seq<Op>, universe: set<Thread>)
    requires Legal(ops) && Mentioned(ops) <= universe
    requires Steady(universe) && MatchingIsEquivalence(phone, universe)
    ensures IsPartition(phone, Run(phone, ops)) && Within(Run(phone, ops), universe)
  {
    if ops != [] {
      var n := |ops| - 1;
      var t := ops[n].thread;
      LegalPrefix(ops, n);
      RunIsPartition(phone, ops[..n], universe);
      RunIsProper(phone, ops[..n]);
      RunIsCoherent(phone, ops);
      assert t in Mentioned(ops);
      if ops[n].Put? {
        AddedPartition(phone, Run(phone, ops[..n]), t, universe);
      } else {
        RemovedPartition(phone, Run(phone, ops[..n]), t, universe);
      }
    }
  }

  /** The names of the participants of these threads. */
  ghost function NamesOf(universe: set<Thread>): set<string> {
    set t, x | t in universe && x in t.participants :: x
  }

  /** A phone comparison that is an equivalence on the names of the threads makes matching one. */
  lemma EquivalentPhonesGiveEquivalentThreads(phone: (string, string) -> bool, universe: set<Thread>)
    requires Participants.Equivalence(phone, NamesOf(universe))
    ensures MatchingIsEquivalence(phone, universe)
  {
    Participants.CompareIsEquivalenceExactly(phone, NamesOf(universe));
    forall t | t in universe ensures Participants.Over(t.participants, NamesOf(universe)) {
    }
  }

  // ---------------------------------------------------------------- who belongs together, said about names

  /** Both grouped, of one chat type, and the participants can be paired off so that every pair matches. */
  ghost predicate Belongs(phone: (string, string) -> bool, t: Thread, m: Thread) {
    && ShouldGroupThread(t) && ShouldGroupThread(m) && t.chatType == m.chatType
    && Participants.Pairable(phone, t.participants, m.participants)
  }

  lemma MatchesBelongs(phone: (string, string) -> bool, t: Thread, m: Thread)
    requires Matches(phone, t, m)
    ensures Belongs(phone, t, m)
  {
    var f := Participants.GreedyIsSound(phone, t.participants, m.participants);
  }

  lemma BelongsMatches(phone: (string, string) -> bool, names: set<string>, t: Thread, m: Thread)
    requires Participants.Difunctional(phone, names) && Belongs(phone, t, m)
    requires Participants.Over(t.participants, names) && Participants.Over(m.participants, names)
    ensures Matches(phone, t, m)
  {
    var f :| Participants.IsPairing(phone, t.participants, m.participants, f);
    Participants.GreedyIsComplete(phone, names, t.participants, m.participants, f);
  }

  /** A new thread that ends up with another one joined a conversation with a thread that it belongs with. */
  lemma JoinsOnlyWhereItBelongs(phone: (string, string) -> bool, convs: Conversations, t: Thread, y: string)
    requires Wf(convs) && t.eventType.Text? && Coherent(convs, t) && !Cached(convs, Key(t))
    requires y != Key(t) && Together(Added(phone, convs, t), Key(t), y)
    ensures exists k, m :: k in convs && m in convs[k] && Holds(convs, k, y) && Belongs(phone, t, m)
  {
    var k := AddedMembers(phone, convs, t).0;
    TogetherAfterAdd(phone, convs, t, Key(t), y);
    assert Holds(convs, k, y);
    if MatchingKeys(phone, convs, t) == {} {
      KeyIsHeld(convs, k);
    } else {
      var m :| m in convs[k] && Matches(phone, t, m);
      MatchesBelongs(phone, t, m);
    }
  }

  /**
   * Where the comparison is difunctional on the names, a new thread that belongs with a cached one joins the first
   * conversation, in the order of the keys, with a thread that it belongs with.
   */
  lemma JoinsTheFirstWhereItBelongs(phone: (string, string) -> bool, names: set<string>, convs: Conversations,
                                    t: Thread)
    requires Wf(convs) && t.eventType.Text? && Coherent(convs, t) && !Cached(convs, Key(t))
    requires Participants.Difunctional(phone, names) && Participants.Over(t.participants, names)
    requires forall u :: InCache(convs, u) ==> Participants.Over(u.participants, names)
    requires exists m :: InCache(convs, m) && Belongs(phone, t, m)
    ensures exists k, u :: k in convs && u in convs[k] && Belongs(phone, t, u)
              && Together(Added(phone, convs, t), Key(t), Key(u))
              && forall h, v :: h in convs && v in convs[h] && Belongs(phone, t, v) ==> StringLe(k, h)
  {
    forall h, v | h in convs && v in convs[h] && Belongs(phone, t, v) ensures h in MatchingKeys(phone, convs, t) {
      assert InCache(convs, v);
      BelongsMatches(phone, names, t, v);
    }
    var m :| InCache(convs, m) && Belongs(phone, t, m);
    var j :| j in convs && m in convs[j];
    assert j in MatchingKeys(phone, convs, t);
    var k := Least(MatchingKeys(phone, convs, t));
    var u :| u in convs[k] && Matches(phone, t, u);
    MatchesBelongs(phone, t, u);
    assert Holds(convs, k, Key(u));
    TogetherAfterAdd(phone, convs, t, Key(t), Key(u));
  }

  /**
   * After every run of threads that keep chat type and participants, two cached threads share a conversation exactly
   * if both are grouped, of one chat type, and have as many participants of every class of equal phone numbers.
   */
  lemma RunGroupsByParticipants(phone: (string, string) -> bool, ops: seq<Op>, universe: set<Thread>, u: Thread,
                                v: Thread)
    requires Legal(ops) && Mentioned(ops) <= universe && Steady(universe)
    requires Participants.Equivalence(phone, NamesOf(universe))
    requires InCache(Run(phone, ops), u) && InCache(Run(phone, ops), v) && Key(u) != Key(v)
    ensures Together(Run(phone, ops), Key(u), Key(v)) <==>
              && ShouldGroupThread(u) && ShouldGroupThread(v) && u.chatType == v.chatType
              && Participants.SameCounts(phone, NamesOf(universe), u.participants, v.participants)
  {
    EquivalentPhonesGiveEquivalentThreads(phone, universe);
    RunIsPartition(phone, ops, universe);
    MatchesByCounts(phone, universe, u, v);
  }

  lemma MatchesByCounts(phone: (string, string) -> bool, universe: set<Thread>, u: Thread, v: Thread)
    requires Participants.Equivalence(phone, NamesOf(universe)) && u in universe && v in universe
    ensures Matches(phone, u, v) <==>
              && ShouldGroupThread(u) && ShouldGroupThread(v) && u.chatType == v.chatType
              && Participants.SameCounts(phone, NamesOf(universe), u.participants, v.participants)
  {
    Participants.CompareIsSameCounts(phone, NamesOf(universe), u.participants, v.participants);
  }

  // ---------------------------------------------------------------- caches that hold the same

  /** The same threads, in the same company, no two of the same time. */
  ghost predicate SameCompany(c1: Conversations, c2: Conversations) {
    && (forall u :: InCache(c1, u) <==> InCache(c2, u))
    && (forall u, v :: InCache(c1, u) && InCache(c1, v) ==>
                         (Together(c1, Key(u), Key(v)) <==> Together(c2, Key(u), Key(v))))
  }

  ghost predicate DifferentTimes(convs: Conversations) {
    forall u, v :: InCache(convs, u) && InCache(convs, v) && u.timestamp == v.timestamp ==> u == v
  }

  lemma InSameConversation(convs: Conversations, k: string, d: Thread, u: Thread)
    requires Wf(convs) && k in convs && d in convs[k]
    ensures u in convs[k] <==> InCache(convs, u) && Together(convs, Key(d), Key(u))
  {
    assert Holds(convs, k, Key(d));
    if u in convs[k] {
      assert Holds(convs, k, Key(u));
    } else if InCache(convs, u) {
      var j :| j in convs && u in convs[j];
      assert Holds(convs, j, Key(u));
    }
  }

  /** They hold the same conversations under the same keys. */
  lemma SameConversations(c1: Conversations, c2: Conversations, k: string)
    requires Wf(c1) && Wf(c2) && SameCompany(c1, c2) && DifferentTimes(c1)
    ensures k in c1 <==> k in c2
    ensures k in c1 ==> forall u :: u in c1[k] <==> u in c2[k]
  {
    if k in c1 { ConversationIn(c1, c2, k); }
    if k in c2 { ConversationIn(c2, c1, k); }
  }

  lemma ConversationIn(c1: Conversations, c2: Conversations, k: string)
    requires Wf(c1) && Wf(c2) && SameCompany(c1, c2) && DifferentTimes(c1) && k in c1
    ensures k in c2 && forall u :: u in c1[k] <==> u in c2[k]
  {
    var d := Latest(c1[k]);
    assert InCache(c1, d);
    var h :| h in c2 && d in c2[h];
    SameMembers(c1, c2, k, h, d);
    var e := Latest(c2[h]);
    assert e in c1[k] && InCache(c1, e);
    assert e == d && Key(d) == k && Key(e) == h;
  }

  lemma SameMembers(c1: Conversations, c2: Conversations, k: string, h: string, d: Thread)
    requires Wf(c1) && Wf(c2) && SameCompany(c1, c2) && k in c1 && h in c2 && d in c1[k] && d in c2[h]
    ensures forall u :: u in c1[k] <==> u in c2[h]
  {
    assert InCache(c1, d);
    forall u ensures u in c1[k] <==> u in c2[h] {
      InSameConversation(c1, k, d, u);
      InSameConversation(c2, h, d, u);
    }
  }

  // ---------------------------------------------------------------- runs with the same outcome

  /** Two runs that leave the same threads stored leave the same threads together, in whatever order it came about. */
  lemma SameStoreSameCompany(phone: (string, string) -> bool, ops1: seq<Op>, ops2: seq<Op>, universe: set<Thread>)
    requires Legal(ops1) && Legal(ops2) && Mentioned(ops1) <= universe && Mentioned(ops2) <= universe
    requires Steady(universe) && MatchingIsEquivalence(phone, universe)
    requires Stored(ops1) == Stored(ops2)
    ensures SameCompany(Run(phone, ops1), Run(phone, ops2))
  {
    var c1, c2 := Run(phone, ops1), Run(phone, ops2);
    RunIsProper(phone, ops1);
    RunIsProper(phone, ops2);
    RunIsPartition(phone, ops1, universe);
    RunIsPartition(phone, ops2, universe);
    PartitionsAgree(phone, c1, c2);
  }

  lemma PartitionsAgree(phone: (string, string) -> bool, c1: Conversations, c2: Conversations)
    requires IsPartition(phone, c1) && IsPartition(phone, c2) && forall u :: InCache(c1, u) <==> InCache(c2, u)
    ensures SameCompany(c1, c2)
  {
    forall u, v | InCache(c1, u) && InCache(c1, v)
      ensures Together(c1, Key(u), Key(v)) <==> Together(c2, Key(u), Key(v))
    {
      if Key(u) == Key(v) {
        TogetherAlone(c1, u);
        TogetherAlone(c2, u);
      }
    }
  }

  lemma TogetherAlone(convs: Conversations, u: Thread)
    requires InCache(convs, u)
    ensures Together(convs, Key(u), Key(u))
  {
    var k :| k in convs && u in convs[k];
    assert Holds(convs, k, Key(u));
  }

  /** If their timestamps differ too, the two runs leave the same conversations under the same keys. */
  lemma SameStoreSameKeys(phone: (string, string) -> bool, ops1: seq<Op>, ops2: seq<Op>, universe: set<Thread>,
                          k: string)
    requires Legal(ops1) && Legal(ops2) && Mentioned(ops1) <= universe && Mentioned(ops2) <= universe
    requires Steady(universe) && MatchingIsEquivalence(phone, universe)
    requires Stored(ops1) == Stored(ops2)
    requires forall x, y :: x in Stored(ops1) && y in Stored(ops1) && x != y ==>
                              Stored(ops1)[x].timestamp != Stored(ops1)[y].timestamp
    ensures k in Run(phone, ops1) <==> k in Run(phone, ops2)
    ensures k in Run(phone, ops1) ==> forall u :: u in Run(phone, ops1)[k] <==> u in Run(phone, ops2)[k]
  {
    SameStoreSameCompany(phone, ops1, ops2, universe);
    RunIsProper(phone, ops1);
    RunIsProper(phone, ops2);
    SameConversations(Run(phone, ops1), Run(phone, ops2), k);
  }
}
