/**
 * What the conversation cache of the SQLite plugin is for: a set of conversations, each a list of
 * grouped threads, filed under the key of its displayed thread.
 */
module Conversations {
  import opened Strings
  import opened Threads
  import Participants

  type Conversations = map<string, seq<Thread>>

  /** What getSingleThread says when grouping: nothing, or the thread with the list of its conversation. */
  datatype Answer = Unknown | Grouped(thread: Thread, threads: seq<Thread>)

  // ---------------------------------------------------------------- one conversation

  /** QList::indexOf finds t. */
  predicate Lists(threads: seq<Thread>, t: Thread) {
    exists u :: u in threads && SameThread(u, t)
  }

  ghost predicate HasKey(members: seq<Thread>, key: string) {
    exists u :: u in members && Key(u) == key
  }

  ghost predicate DistinctKeys(members: seq<Thread>) {
    forall i, j :: 0 <= i < j < |members| ==> Key(members[i]) != Key(members[j])
  }

  /** QList::removeAll. */
  function Without(members: seq<Thread>, t: Thread): (r: seq<Thread>)
    ensures forall u :: u in r <==> u in members && !SameThread(u, t)
    ensures |r| <= |members|
  {
    if members == [] then []
    else if SameThread(members[0], t) then Without(members[1..], t)
    else [members[0]] + Without(members[1..], t)
  }

  /** The displayed member: the first one with the greatest timestamp. */
  function Latest(members: seq<Thread>): (d: Thread)
    requires members != []
    ensures d in members
    ensures forall u :: u in members ==> u.timestamp <= d.timestamp
  {
    if |members| == 1 then members[0]
    else
      var d := Latest(members[1..]);
      if members[0].timestamp < d.timestamp then d else members[0]
  }

  lemma {:induction false} LatestIsFirst(members: seq<Thread>) returns (i: nat)
    requires members != []
    ensures i < |members| && members[i] == Latest(members)
    ensures forall j :: 0 <= j < i ==> members[j].timestamp < members[i].timestamp
  {
    if |members| == 1 || members[0].timestamp >= Latest(members[1..]).timestamp {
      i := 0;
    } else {
      var k := LatestIsFirst(members[1..]);
      i := k + 1;
    }
  }

  lemma FirstGreatest(members: seq<Thread>, at: nat)
    requires at < |members| && forall j :: 0 <= j < at ==> members[j].timestamp < members[at].timestamp
    requires forall j :: 0 <= j < |members| ==> members[j].timestamp <= members[at].timestamp
    ensures members[at] == Latest(members)
  {
    var i := LatestIsFirst(members);
    assert members[at] in members && members[at].timestamp <= members[i].timestamp;
  }

  /** Taking out a member that is not displayed leaves the displayed one displayed. */
  lemma {:induction false} LatestWithout(members: seq<Thread>, t: Thread)
    requires members != [] && !SameThread(Latest(members), t)
    ensures Without(members, t) != [] && Latest(Without(members, t)) == Latest(members)
  {
    if |members| > 1 {
      if members[0].timestamp < Latest(members[1..]).timestamp {
        LatestWithout(members[1..], t);
      } else {
        assert Without(members, t)[1..] == Without(members[1..], t);
      }
    }
  }

  /** What is left keeps its order. */
  lemma {:induction false} WithoutKeepsOrder(members: seq<Thread>, t: Thread, i: nat, j: nat) returns (k: nat, l: nat)
    requires i < j < |Without(members, t)|
    ensures k < l < |members| && members[k] == Without(members, t)[i] && members[l] == Without(members, t)[j]
  {
    var rest := Without(members[1..], t);
    if SameThread(members[0], t) {
      k, l := WithoutKeepsOrder(members[1..], t, i, j);
      k, l := k + 1, l + 1;
    } else if i > 0 {
      k, l := WithoutKeepsOrder(members[1..], t, i - 1, j - 1);
      k, l := k + 1, l + 1;
    } else {
      k := 0;
      assert rest[j - 1] in rest;
      var m :| 0 <= m < |members| - 1 && members[1..][m] == rest[j - 1];
      l := m + 1;
    }
  }

  lemma {:induction false} WithoutDistinct(members: seq<Thread>, t: Thread)
    requires DistinctKeys(members)
    ensures DistinctKeys(Without(members, t))
  {
    if members != [] {
      WithoutDistinct(members[1..], t);
      var rest := Without(members[1..], t);
      forall u | u in rest ensures Key(u) != Key(members[0]) {
        var i :| 0 <= i < |members| - 1 && members[1..][i] == u;
        assert members[i + 1] == u;
      }
    }
  }

  // ---------------------------------------------------------------- all conversations

  /** The conversation filed under key k holds a thread with key x. */
  ghost predicate Holds(convs: Conversations, k: string, x: string) {
    k in convs && HasKey(convs[k], x)
  }

  ghost predicate ConversationOk(members: seq<Thread>) {
    && members != []
    && DistinctKeys(members)
    && (forall u :: u in members ==> u.eventType.Text?)
    && (|members| > 1 ==> forall u :: u in members ==> ShouldGroupThread(u))
  }

  /**
   * No conversation is empty or lists a thread twice, each is filed under the key of its first
   * latest member, and no thread is in two of them.
   */
  ghost predicate Wf(convs: Conversations) {
    && (forall k :: k in convs ==> ConversationOk(convs[k]) && Key(Latest(convs[k])) == k)
    && (forall k1, k2, x :: Holds(convs, k1, x) && Holds(convs, k2, x) ==> k1 == k2)
  }

  /** keys is the reverse map: exactly the cached threads, each pointing at its conversation. */
  ghost predicate Indexes(keys: map<string, string>, convs: Conversations) {
    && (forall x :: x in keys ==> Holds(convs, keys[x], x))
    && (forall k, x :: Holds(convs, k, x) ==> x in keys)
  }

  /** The conversations alone determine the reverse map. */
  lemma IndexUnique(convs: Conversations, keys1: map<string, string>, keys2: map<string, string>)
    requires Wf(convs) && Indexes(keys1, convs) && Indexes(keys2, convs)
    ensures keys1 == keys2
  {
    SameEntries(convs, keys1, keys2);
    SameEntries(convs, keys2, keys1);
  }

  lemma SameEntries(convs: Conversations, keys1: map<string, string>, keys2: map<string, string>)
    requires Wf(convs) && Indexes(keys1, convs) && Indexes(keys2, convs)
    ensures forall x :: x in keys1 ==> x in keys2 && keys1[x] == keys2[x]
  {
    forall x | x in keys1 ensures x in keys2 && keys1[x] == keys2[x] {
      assert Holds(convs, keys1[x], x);
      assert Holds(convs, keys2[x], x);
    }
  }

  ghost predicate Cached(convs: Conversations, x: string) {
    exists k :: Holds(convs, k, x)
  }

  /** The key of the conversation that holds the thread with key x. */
  ghost function Home(convs: Conversations, x: string): (k: string)
    requires Cached(convs, x)
    ensures Holds(convs, k, x)
  {
    var k :| Holds(convs, k, x);
    k
  }

  // ---------------------------------------------------------------- what adding and removing mean

  /** t would be grouped with u when t is new: same kind of chat and the same participants. */
  predicate Matches(phone: (string, string) -> bool, t: Thread, u: Thread) {
    && ShouldGroupThread(t) && ShouldGroupThread(u)
    && t.chatType == u.chatType
    && Participants.Compare(phone, t.participants, u.participants, Participants.Phone)
  }

  function MatchingKeys(phone: (string, string) -> bool, convs: Conversations, t: Thread): (ks: set<string>)
  {
    set k | k in convs && exists u :: u in convs[k] && Matches(phone, t, u)
  }

  /** Put members in the place of conversation k, filed under their own displayed thread. */
  function Replace(convs: Conversations, k: string, members: seq<Thread>): Conversations {
    if members == [] then convs - {k} else (convs - {k})[Key(Latest(members)) := members]
  }

  /** Adding or updating t: it moves to the end of its conversation, or joins the first that matches, or starts one. */
  ghost function Added(phone: (string, string) -> bool, convs: Conversations, t: Thread): Conversations {
    if !t.eventType.Text? then convs
    else
      var (k, members) := AddedMembers(phone, convs, t);
      Replace(convs, k, members)
  }

  /** Removing t takes it out of its conversation, which disappears with its last member. */
  ghost function Removed(convs: Conversations, t: Thread): Conversations {
    if Cached(convs, Key(t)) then
      var k := Home(convs, Key(t));
      Replace(convs, k, Without(convs[k], t))
    else convs
  }

  /** t and the cached threads tell threads apart by key, and none started or stopped being grouped. */
  ghost predicate Coherent(convs: Conversations, t: Thread) {
    forall k, u :: k in convs && u in convs[k] ==> Agree(u, t)
  }

  // ---------------------------------------------------------------- one lemma for every change

  /** The key of a proper conversation is one of the keys it holds. */
  lemma KeyIsHeld(convs: Conversations, k: string)
    requires Wf(convs) && k in convs
    ensures Holds(convs, k, k)
  {
    assert Latest(convs[k]) in convs[k];
  }

  lemma ReplaceHolds(convs: Conversations, k: string, members: seq<Thread>, j: string, x: string)
    requires Wf(convs)
    requires forall j, x :: HasKey(members, x) && Holds(convs, j, x) ==> j == k
    ensures Holds(Replace(convs, k, members), j, x) <==>
              ((j != k && Holds(convs, j, x)) || (members != [] && j == Key(Latest(members)) && HasKey(members, x)))
  {
    if members != [] {
      var d := Key(Latest(members));
      assert HasKey(members, d);
      if d in convs { KeyIsHeld(convs, d); }
    }
  }

  /** Putting a proper conversation, whose threads are new or came from k, in the place of k keeps the cache proper. */
  lemma ReplaceKeepsWf(convs: Conversations, k: string, members: seq<Thread>)
    requires Wf(convs)
    requires members != [] ==> ConversationOk(members)
    requires forall j, x :: HasKey(members, x) && Holds(convs, j, x) ==> j == k
    ensures Wf(Replace(convs, k, members))
  {
    var after := Replace(convs, k, members);
    forall k1, k2, x | Holds(after, k1, x) && Holds(after, k2, x) ensures k1 == k2 {
      ReplaceHolds(convs, k, members, k1, x);
      ReplaceHolds(convs, k, members, k2, x);
    }
  }

  /** The same fact for a reverse map that was repaired alongside. */
  lemma ReplaceKeepsIndex(convs: Conversations, keys: map<string, string>, k: string, members: seq<Thread>,
                          keys': map<string, string>)
    requires Wf(convs) && Indexes(keys, convs)
    requires members != [] ==> ConversationOk(members)
    requires forall j, x :: HasKey(members, x) && Holds(convs, j, x) ==> j == k
    requires forall x :: x in keys' <==> (x in keys && keys[x] != k) || HasKey(members, x)
    requires forall x :: x in keys' ==> keys'[x] == if HasKey(members, x) then Key(Latest(members)) else keys[x]
    ensures Wf(Replace(convs, k, members)) && Indexes(keys', Replace(convs, k, members))
  {
    ReplaceKeepsWf(convs, k, members);
    var after := Replace(convs, k, members);
    forall x | x in keys' ensures Holds(after, keys'[x], x) {
      ReplaceHolds(convs, k, members, keys'[x], x);
      if !HasKey(members, x) { assert Holds(convs, keys[x], x); }
    }
    forall j, x | Holds(after, j, x) ensures x in keys' {
      ReplaceHolds(convs, k, members, j, x);
      if j != k && Holds(convs, j, x) { assert Holds(convs, keys[x], x); }
    }
  }

  // ---------------------------------------------------------------- the new member lists are proper

  ghost predicate AllAgree(members: seq<Thread>, t: Thread) {
    forall u :: u in members ==> Agree(u, t)
  }

  lemma HeldBySame(members: seq<Thread>, t: Thread)
    requires ConversationOk(members) && AllAgree(members, t) && HasKey(members, Key(t))
    ensures |members| > 1 ==> ShouldGroupThread(t)
    ensures |members| == 1 ==> SameKind(members[0], t) && Without(members, t) == []
  {
    var u :| u in members && Key(u) == Key(t);
    assert Agree(u, t);
    assert |members| == 1 ==> members[0] == u;
  }

  lemma WithoutKeys(members: seq<Thread>, t: Thread, x: string)
    requires AllAgree(members, t)
    ensures HasKey(Without(members, t), x) <==> HasKey(members, x) && x != Key(t)
  {
    if u :| u in members && Key(u) == x {
      assert Agree(u, t);
      if x != Key(t) { assert u in Without(members, t); }
    }
  }

  lemma WithoutOk(members: seq<Thread>, t: Thread)
    requires ConversationOk(members) && AllAgree(members, t)
    ensures Without(members, t) != [] ==> ConversationOk(Without(members, t))
  {
    WithoutDistinct(members, t);
  }

  lemma AppendOk(members: seq<Thread>, t: Thread)
    requires t.eventType.Text?
    requires members != [] ==> ConversationOk(members) && ShouldGroupThread(t)
    requires |members| == 1 ==> ShouldGroupThread(members[0])
    requires !HasKey(members, Key(t))
    ensures ConversationOk(members + [t])
  {
    assert forall u :: u in members ==> Key(u) != Key(t);
  }

  lemma AppendKeys(members: seq<Thread>, t: Thread, x: string)
    ensures HasKey(members + [t], x) <==> HasKey(members, x) || x == Key(t)
  {
    assert t in members + [t];
    if u :| u in members && Key(u) == x { assert u in members + [t]; }
  }

  // ---------------------------------------------------------------- adding and removing keep the cache proper

  /** The key and the member list that an addition changes. */
  ghost function AddedMembers(phone: (string, string) -> bool, convs: Conversations,
                              t: Thread): (r: (string, seq<Thread>))
  {
    if Cached(convs, Key(t)) then
      var k := Home(convs, Key(t));
      (k, Without(convs[k], t) + [t])
    else if MatchingKeys(phone, convs, t) != {} then
      var k := Least(MatchingKeys(phone, convs, t));
      (k, convs[k] + [t])
    else (Key(t), [t])
  }

  lemma AddedMembersOk(phone: (string, string) -> bool, convs: Conversations, t: Thread)
    requires Wf(convs) && t.eventType.Text? && Coherent(convs, t)
    ensures var (k, members) := AddedMembers(phone, convs, t);
            && ConversationOk(members)
            && (forall x :: HasKey(members, x) <==> Holds(convs, k, x) || x == Key(t))
            && (Cached(convs, Key(t)) ==> Holds(convs, k, Key(t)))
  {
    var (k, members) := AddedMembers(phone, convs, t);
    if Cached(convs, Key(t)) {
      UpdatedMembersOk(convs[k], t);
    } else if MatchingKeys(phone, convs, t) != {} {
      assert !Holds(convs, k, Key(t));
      var m :| m in convs[k] && Matches(phone, t, m);
      AppendOk(convs[k], t);
      forall x ensures HasKey(members, x) <==> Holds(convs, k, x) || x == Key(t) { AppendKeys(convs[k], t, x); }
    } else {
      if k in convs { KeyIsHeld(convs, k); }
      AppendOk([], t);
      assert [] + [t] == [t];
      forall x ensures HasKey(members, x) <==> Holds(convs, k, x) || x == Key(t) { AppendKeys([], t, x); }
    }
  }

  lemma UpdatedMembersOk(members: seq<Thread>, t: Thread)
    requires ConversationOk(members) && AllAgree(members, t) && HasKey(members, Key(t)) && t.eventType.Text?
    ensures ConversationOk(Without(members, t) + [t])
    ensures forall x :: HasKey(Without(members, t) + [t], x) <==> HasKey(members, x)
  {
    var rest := Without(members, t);
    HeldBySame(members, t);
    WithoutOk(members, t);
    if rest != [] { assert rest[0] in members; }
    WithoutKeys(members, t, Key(t));
    AppendOk(rest, t);
    forall x ensures HasKey(rest + [t], x) <==> HasKey(members, x) {
      WithoutKeys(members, t, x);
      AppendKeys(rest, t, x);
    }
  }

  lemma ReplaceCached(convs: Conversations, k: string, members: seq<Thread>, x: string)
    requires Wf(convs)
    requires forall j, x :: HasKey(members, x) && Holds(convs, j, x) ==> j == k
    ensures Cached(Replace(convs, k, members), x) <==> (Cached(convs, x) && !Holds(convs, k, x)) || HasKey(members, x)
  {
    var after := Replace(convs, k, members);
    if j :| Holds(after, j, x) { ReplaceHolds(convs, k, members, j, x); }
    if HasKey(members, x) { ReplaceHolds(convs, k, members, Key(Latest(members)), x); }
    if j :| Holds(convs, j, x) && j != k { ReplaceHolds(convs, k, members, j, x); }
  }

  /** Adding keeps the cache proper, and keeps exactly the threads it had plus the one added. */
  lemma AddedOk(phone: (string, string) -> bool, convs: Conversations, t: Thread)
    requires Wf(convs) && (t.eventType.Text? ==> Coherent(convs, t))
    ensures Wf(Added(phone, convs, t))
    ensures forall x :: Cached(Added(phone, convs, t), x) <==> Cached(convs, x) || (t.eventType.Text? && x == Key(t))
  {
    if t.eventType.Text? {
      var (k, members) := AddedMembers(phone, convs, t);
      AddedMembersOk(phone, convs, t);
      ReplaceKeepsWf(convs, k, members);
      forall x ensures Cached(Added(phone, convs, t), x) <==> Cached(convs, x) || x == Key(t) {
        ReplaceCached(convs, k, members, x);
      }
    }
  }

  lemma WithoutMembersOk(members: seq<Thread>, t: Thread)
    requires ConversationOk(members) && AllAgree(members, t)
    ensures Without(members, t) != [] ==> ConversationOk(Without(members, t))
    ensures forall x :: HasKey(Without(members, t), x) <==> HasKey(members, x) && x != Key(t)
  {
    WithoutOk(members, t);
    forall x ensures HasKey(Without(members, t), x) <==> HasKey(members, x) && x != Key(t) {
      WithoutKeys(members, t, x);
    }
  }

  lemma RemovedOk(convs: Conversations, t: Thread)
    requires Wf(convs) && Coherent(convs, t)
    ensures Wf(Removed(convs, t))
    ensures forall x :: Cached(Removed(convs, t), x) <==> Cached(convs, x) && x != Key(t)
  {
    if Cached(convs, Key(t)) {
      var k := Home(convs, Key(t));
      var members := Without(convs[k], t);
      assert AllAgree(convs[k], t);
      WithoutMembersOk(convs[k], t);
      forall j, x | HasKey(members, x) && Holds(convs, j, x) ensures j == k {
        assert Holds(convs, k, x);
      }
      ReplaceKeepsWf(convs, k, members);
      forall x ensures Cached(Replace(convs, k, members), x) <==> Cached(convs, x) && x != Key(t) {
        ReplaceCached(convs, k, members, x);
        assert HasKey(members, x) <==> Holds(convs, k, x) && x != Key(t);
        assert Holds(convs, k, x) ==> Cached(convs, x);
        assert x == Key(t) ==> Holds(convs, k, x);
      }
    }
  }

  /** A thread that is not grouped is alone in its conversation, filed under its own key. */
  lemma UngroupedMembers(phone: (string, string) -> bool, convs: Conversations, t: Thread)
    requires Wf(convs) && t.eventType.Text? && Coherent(convs, t) && !ShouldGroupThread(t)
    ensures AddedMembers(phone, convs, t) == (Key(t), [t])
  {
    if Cached(convs, Key(t)) {
      var k := Home(convs, Key(t));
      assert AllAgree(convs[k], t);
      HeldBySame(convs[k], t);
      assert |convs[k]| == 1;
      assert k == Key(convs[k][0]) == Key(t);
      assert Without(convs[k], t) + [t] == [t];
    }
  }

  /** An addition puts the thread last in its conversation. */
  lemma AddedGoesLast(phone: (string, string) -> bool, convs: Conversations, t: Thread) returns (d: string)
    requires Wf(convs) && t.eventType.Text? && Coherent(convs, t)
    ensures d in Added(phone, convs, t) && Added(phone, convs, t)[d] == AddedMembers(phone, convs, t).1
    ensures var members := Added(phone, convs, t)[d];
            members != [] && members[|members| - 1] == t
  {
    d := Key(Latest(AddedMembers(phone, convs, t).1));
  }

  /** The others there keep their order. */
  lemma AddedKeepsOrder(phone: (string, string) -> bool, convs: Conversations, t: Thread, i: nat, j: nat)
    returns (h: string, k: nat, l: nat)
    requires Wf(convs) && t.eventType.Text? && Coherent(convs, t) && i < j < |AddedMembers(phone, convs, t).1| - 1
    ensures h in convs && k < l < |convs[h]|
    ensures convs[h][k] == AddedMembers(phone, convs, t).1[i] && convs[h][l] == AddedMembers(phone, convs, t).1[j]
  {
    h := AddedMembers(phone, convs, t).0;
    if Cached(convs, Key(t)) {
      k, l := WithoutKeepsOrder(convs[h], t, i, j);
    } else {
      k, l := i, j;
    }
  }
}
