/** The conversation cache over whole runs: what it contains, and that it is the partition it is meant to be. */
module ConversationRuns {
  import opened Threads
  import opened Conversations
  import opened CacheRepair

  // ---------------------------------------------------------------- what is in the cache

  ghost predicate InCache(convs: Conversations, u: Thread) {
    exists k :: k in convs && u in convs[k]
  }

  lemma InReplace(convs: Conversations, k: string, members: seq<Thread>, u: Thread)
    requires Wf(convs)
    requires forall j, x :: HasKey(members, x) && Holds(convs, j, x) ==> j == k
    ensures InCache(Replace(convs, k, members), u) <==> u in members || (InCache(convs, u) && !Holds(convs, k, Key(u)))
  {
    var after := Replace(convs, k, members);
    if members != [] {
      var d := Key(Latest(members));
      assert HasKey(members, d);
      if d in convs { KeyIsHeld(convs, d); }
      if u in members { assert d in after && u in after[d]; }
    }
    if j :| j in convs && u in convs[j] && !Holds(convs, k, Key(u)) {
      assert Holds(convs, j, Key(u));
      assert j in after && u in after[j];
    }
    if j :| j in after && u in after[j] && u !in members {
      assert Holds(convs, j, Key(u));
    }
  }

  lemma MembersAfterAdd(phone: (string, string) -> bool, convs: Conversations, t: Thread, u: Thread)
    requires Wf(convs) && t.eventType.Text? && Coherent(convs, t)
    ensures var (k, members) := AddedMembers(phone, convs, t);
            u in members <==> u == t || (k in convs && u in convs[k] && Key(u) != Key(t))
  {
    var (k, members) := AddedMembers(phone, convs, t);
    if k in convs && u in convs[k] {
      assert Agree(u, t);
      assert Holds(convs, k, Key(u));
    }
    if k in convs && !Cached(convs, Key(t)) && MatchingKeys(phone, convs, t) == {} { KeyIsHeld(convs, k); }
  }

  /** The cache after an addition holds the thread added and every other thread it held. */
  lemma AddedContent(phone: (string, string) -> bool, convs: Conversations, t: Thread, u: Thread)
    requires Wf(convs) && t.eventType.Text? && Coherent(convs, t)
    ensures InCache(Added(phone, convs, t), u) <==> u == t || (InCache(convs, u) && Key(u) != Key(t))
  {
    var (k, members) := AddedMembers(phone, convs, t);
    AddedMembersOk(phone, convs, t);
    MembersAfterAdd(phone, convs, t, u);
    InReplace(convs, k, members, u);
    if j :| j in convs && u in convs[j] {
      assert Holds(convs, j, Key(u));
      if Key(u) == Key(t) { assert Holds(convs, k, Key(t)); }
    }
  }

  lemma RemovedContent(convs: Conversations, t: Thread, u: Thread)
    requires Wf(convs) && Coherent(convs, t)
    ensures InCache(Removed(convs, t), u) <==> InCache(convs, u) && Key(u) != Key(t)
  {
    if j :| j in convs && u in convs[j] {
      assert Agree(u, t);
      assert Holds(convs, j, Key(u));
    }
    if Cached(convs, Key(t)) {
      var k := Home(convs, Key(t));
      RemoveFacts(convs, k, t);
      InReplace(convs, k, Without(convs[k], t), u);
    }
  }

  // ---------------------------------------------------------------- runs

  datatype Op = Put(thread: Thread) | Drop(thread: Thread)

  ghost function Step(phone: (string, string) -> bool, convs: Conversations, op: Op): Conversations {
    match op
    case Put(t) => Added(phone, convs, t)
    case Drop(t) => Removed(convs, t)
  }

  ghost function Run(phone: (string, string) -> bool, ops: seq<Op>): Conversations {
    if ops == [] then map[] else Step(phone, Run(phone, ops[..|ops| - 1]), ops[|ops| - 1])
  }

  /** The text threads a store with the same history would hold, each in its latest version. */
  function Stored(ops: seq<Op>): map<string, Thread> {
    if ops == [] then map[]
    else
      var before, op := Stored(ops[..|ops| - 1]), ops[|ops| - 1];
      if op.Put? then before[Key(op.thread) := op.thread] else before - {Key(op.thread)}
  }

  /** Text threads only; an equal key means the same thread, and threads do not start or stop being grouped. */
  ghost predicate Legal(ops: seq<Op>) {
    && (forall i :: 0 <= i < |ops| ==> ops[i].thread.eventType.Text?)
    && (forall i, j :: 0 <= i < |ops| && 0 <= j < |ops| ==> Agree(ops[i].thread, ops[j].thread))
  }

  lemma {:induction false} StoredComesFromOps(ops: seq<Op>, x: string)
    requires x in Stored(ops)
    ensures Key(Stored(ops)[x]) == x
    ensures exists i :: 0 <= i < |ops| && ops[i].thread == Stored(ops)[x]
  {
    var n := |ops| - 1;
    if x in Stored(ops[..n]) && Stored(ops)[x] == Stored(ops[..n])[x] {
      StoredComesFromOps(ops[..n], x);
      var i :| 0 <= i < n && ops[..n][i].thread == Stored(ops)[x];
      assert ops[i].thread == Stored(ops)[x];
    } else {
      assert ops[n].thread == Stored(ops)[x];
    }
  }

  lemma LegalPrefix(ops: seq<Op>, n: nat)
    requires Legal(ops) && n <= |ops|
    ensures Legal(ops[..n])
  {
  }

  /**
   * After every run the cache is proper and holds exactly the threads stored. With IndexUnique this
   * also fixes the reverse map.
   */
  lemma {:induction false} RunIsProper(phone: (string, string) -> bool, ops: seq<Op>)
    requires Legal(ops)
    ensures Wf(Run(phone, ops))
    ensures forall u :: InCache(Run(phone, ops), u) <==> Key(u) in Stored(ops) && Stored(ops)[Key(u)] == u
  {
    if ops != [] {
      var n := |ops| - 1;
      var before, stored, t := Run(phone, ops[..n]), Stored(ops[..n]), ops[n].thread;
      LegalPrefix(ops, n);
      RunIsProper(phone, ops[..n]);
      RunIsCoherent(phone, ops);
      if ops[n].Put? {
        AddedOk(phone, before, t);
        forall u ensures InCache(Added(phone, before, t), u) <==> Key(u) in Stored(ops) && Stored(ops)[Key(u)] == u {
          AddedContent(phone, before, t, u);
        }
      } else {
        RemovedOk(before, t);
        forall u ensures InCache(Removed(before, t), u) <==> Key(u) in Stored(ops) && Stored(ops)[Key(u)] == u {
          RemovedContent(before, t, u);
        }
      }
    }
  }

  lemma RunIsCoherent(phone: (string, string) -> bool, ops: seq<Op>)
    requires Legal(ops) && ops != []
    requires var n := |ops| - 1;
             forall u :: InCache(Run(phone, ops[..n]), u) <==>
                           Key(u) in Stored(ops[..n]) && Stored(ops[..n])[Key(u)] == u
    ensures Coherent(Run(phone, ops[..|ops| - 1]), ops[|ops| - 1].thread)
  {
    var n := |ops| - 1;
    var before := Run(phone, ops[..n]);
    forall k, u | k in before && u in before[k] ensures Agree(u, ops[n].thread) {
      assert InCache(before, u);
      StoredComesFromOps(ops[..n], Key(u));
      var i :| 0 <= i < n && ops[..n][i].thread == u;
      assert ops[i].thread == u;
    }
  }

  /** Every cached thread is one of the run's. */
  lemma CachedFromOps(phone: (string, string) -> bool, ops: seq<Op>, n: nat, k: string, u: Thread) returns (i: nat)
    requires Legal(ops) && n <= |ops| && k in Run(phone, ops[..n]) && u in Run(phone, ops[..n])[k]
    ensures i < n && ops[i].thread == u
  {
    LegalPrefix(ops, n);
    CachedIsStored(phone, ops[..n], k, u);
    i := StoredOp(ops, n, Key(u));
  }

  lemma CachedIsStored(phone: (string, string) -> bool, ops: seq<Op>, k: string, u: Thread)
    requires Legal(ops) && k in Run(phone, ops) && u in Run(phone, ops)[k]
    ensures Key(u) in Stored(ops) && Stored(ops)[Key(u)] == u
  {
    RunIsProper(phone, ops);
    assert InCache(Run(phone, ops), u);
  }

  lemma StoredOp(ops: seq<Op>, n: nat, x: string) returns (i: nat)
    requires n <= |ops| && x in Stored(ops[..n])
    ensures i < n && ops[i].thread == Stored(ops[..n])[x]
  {
    StoredComesFromOps(ops[..n], x);
    i :| 0 <= i < n && ops[..n][i].thread == Stored(ops[..n])[x];
  }

  // ---------------------------------------------------------------- chat types

  /** The threads of a conversation are of one chat type. */
  ghost predicate UniformTypes(convs: Conversations) {
    forall k, u, v :: k in convs && u in convs[k] && v in convs[k] ==> u.chatType == v.chatType
  }

  ghost predicate KeepsType(convs: Conversations, t: Thread) {
    forall k, u :: k in convs && u in convs[k] && Key(u) == Key(t) ==> u.chatType == t.chatType
  }

  lemma AddedUniform(phone: (string, string) -> bool, convs: Conversations, t: Thread)
    requires Wf(convs) && t.eventType.Text? && Coherent(convs, t) && UniformTypes(convs) && KeepsType(convs, t)
    ensures UniformTypes(Added(phone, convs, t))
  {
    var (k, members) := AddedMembers(phone, convs, t);
    forall u | u in members ensures u.chatType == t.chatType {
      MembersAfterAdd(phone, convs, t, u);
      if u != t { HomeHasType(phone, convs, t, u); }
    }
    ReplaceUniform(convs, k, members, t);
  }

  /** A cached thread that t joins is of the chat type of t. */
  lemma HomeHasType(phone: (string, string) -> bool, convs: Conversations, t: Thread, u: Thread)
    requires Wf(convs) && UniformTypes(convs) && KeepsType(convs, t)
    requires var k := AddedMembers(phone, convs, t).0; k in convs && u in convs[k]
    ensures u.chatType == t.chatType || (!Cached(convs, Key(t)) && MatchingKeys(phone, convs, t) == {})
  {
    var k := AddedMembers(phone, convs, t).0;
    if Cached(convs, Key(t)) {
      var w :| w in convs[k] && Key(w) == Key(t);
    } else if MatchingKeys(phone, convs, t) != {} {
      var w :| w in convs[k] && Matches(phone, t, w);
    }
  }

  lemma ReplaceUniform(convs: Conversations, k: string, members: seq<Thread>, t: Thread)
    requires UniformTypes(convs) && forall u :: u in members ==> u.chatType == t.chatType
    ensures UniformTypes(Replace(convs, k, members))
  {
  }

  lemma RemovedUniform(convs: Conversations, t: Thread)
    requires UniformTypes(convs)
    ensures UniformTypes(Removed(convs, t))
  {
  }

  ghost predicate FixedTypes(ops: seq<Op>) {
    forall i, j :: 0 <= i < |ops| && 0 <= j < |ops| && Key(ops[i].thread) == Key(ops[j].thread) ==>
                     ops[i].thread.chatType == ops[j].thread.chatType
  }

  lemma RunKeepsType(phone: (string, string) -> bool, ops: seq<Op>, n: nat)
    requires Legal(ops) && FixedTypes(ops) && n < |ops|
    ensures KeepsType(Run(phone, ops[..n]), ops[n].thread)
  {
    var before := Run(phone, ops[..n]);
    forall k, u | k in before && u in before[k] && Key(u) == Key(ops[n].thread)
      ensures u.chatType == ops[n].thread.chatType
    {
      var i := CachedFromOps(phone, ops, n, k, u);
    }
  }

  /** If no thread ever changes its chat type, every conversation is of one chat type after every run. */
  lemma {:induction false} RunIsUniform(phone: (string, string) -> bool, ops: seq<Op>)
    requires Legal(ops) && FixedTypes(ops)
    ensures UniformTypes(Run(phone, ops))
  {
    if ops != [] {
      var n := |ops| - 1;
      var before, t := Run(phone, ops[..n]), ops[n].thread;
      LegalPrefix(ops, n);
      RunIsUniform(phone, ops[..n]);
      RunIsProper(phone, ops[..n]);
      RunIsCoherent(phone, ops);
      RunKeepsType(phone, ops, n);
      if ops[n].Put? { AddedUniform(phone, before, t); } else { RemovedUniform(before, t); }
    }
  }

  // ---------------------------------------------------------------- the effect of one removal

  /**
   * Removing a member that is not displayed leaves its conversation under the same key with just that
   * member gone; removing the displayed one files the rest under its first latest thread.
   */
  lemma RemovalEffect(convs: Conversations, t: Thread)
    requires Wf(convs) && Coherent(convs, t) && Cached(convs, Key(t))
    ensures var k := Home(convs, Key(t));
            var rest := Without(convs[k], t);
            && (Key(t) != k ==> rest != [] && Removed(convs, t) == convs[k := rest])
            && (Key(t) == k && rest == [] ==> Removed(convs, t) == convs - {k})
            && (Key(t) == k && rest != [] ==>
                  && (Key(Latest(rest)) in convs ==> Key(Latest(rest)) == k)
                  && Removed(convs, t) == (convs - {k})[Key(Latest(rest)) := rest])
  {
    var k := Home(convs, Key(t));
    var rest := Without(convs[k], t);
    RemovedIs(convs, k, t);
    if Key(t) != k {
      MemberRemoved(convs, k, t);
    } else if rest != [] {
      MemberKey(convs, k, Latest(rest));
    }
  }

  lemma MemberRemoved(convs: Conversations, k: string, t: Thread)
    requires Wf(convs) && Coherent(convs, t) && Holds(convs, k, Key(t)) && Key(t) != k
    ensures Without(convs[k], t) != [] && Replace(convs, k, Without(convs[k], t)) == convs[k := Without(convs[k], t)]
  {
    HeldElsewhere(convs, k, Key(t));
    NotDisplayed(convs, k, t);
    ReplaceUnderSameKey(convs, k, Without(convs[k], t));
  }

  lemma HeldElsewhere(convs: Conversations, k: string, x: string)
    requires Wf(convs) && Holds(convs, k, x) && x != k
    ensures x !in convs
  {
    if x in convs { KeyIsHeld(convs, x); }
  }

  lemma ReplaceUnderSameKey(convs: Conversations, k: string, members: seq<Thread>)
    requires members != [] && Key(Latest(members)) == k
    ensures Replace(convs, k, members) == convs[k := members]
  {
  }

  /** The other conversations stay as they were. */
  lemma RemovalLeavesOthers(convs: Conversations, t: Thread, j: string)
    requires Wf(convs) && Coherent(convs, t) && j in convs && !Holds(convs, j, Key(t))
    ensures j in Removed(convs, t) && Removed(convs, t)[j] == convs[j]
  {
    if Cached(convs, Key(t)) {
      var k := Home(convs, Key(t));
      var rest := Without(convs[k], t);
      RemoveFacts(convs, k, t);
      if rest != [] { MemberKey(convs, k, Latest(rest)); }
    }
  }

  /** What the reverse map says about their threads stays too. */
  lemma RemovalLeavesOtherKeys(convs: Conversations, before: map<string, string>, t: Thread, after: map<string, string>,
                               x: string)
    requires Wf(convs) && Coherent(convs, t) && Indexes(before, convs) && Indexes(after, Removed(convs, t))
    requires x in before && !Holds(convs, before[x], Key(t))
    ensures x in after && after[x] == before[x]
  {
    RemovedOk(convs, t);
    RemovalLeavesOthers(convs, t, before[x]);
    assert Holds(convs, before[x], x) && Holds(Removed(convs, t), before[x], x);
    assert Holds(Removed(convs, t), after[x], x);
  }
}
