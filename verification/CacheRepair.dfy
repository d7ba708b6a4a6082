/** How repairing the reverse map step by step brings the two maps of the cache back in step. */
module CacheRepair {
  import opened Strings
  import opened Threads
  import opened Conversations

  /** after is before without the keys of the threads. */
  ghost predicate Forgotten(before: map<string, string>, threads: seq<Thread>, after: map<string, string>) {
    && (forall x :: x in after <==> x in before && !HasKey(threads, x))
    && (forall x :: x in after ==> after[x] == before[x])
  }

  /** after is before with the keys of the threads pointing at key. */
  ghost predicate Repointed(before: map<string, string>, threads: seq<Thread>, key: string,
                            after: map<string, string>) {
    && (forall x :: x in after <==> x in before || HasKey(threads, x))
    && (forall x :: x in after ==> after[x] == if HasKey(threads, x) then key else before[x])
  }

  lemma ReplaceAfterUpdate(convs: Conversations, k: string, members: seq<Thread>)
    requires members != []
    ensures Replace(convs[k := members], k, members) == Replace(convs, k, members)
  {
  }

  lemma KeysOf(convs: Conversations, keys: map<string, string>, k: string)
    requires Wf(convs) && Indexes(keys, convs) && k in convs
    ensures forall x :: (x in keys && keys[x] == k) <==> HasKey(convs[k], x)
  {
    forall x ensures (x in keys && keys[x] == k) <==> HasKey(convs[k], x) {
      if HasKey(convs[k], x) { assert Holds(convs, k, x); }
      if x in keys { assert Holds(convs, keys[x], x); }
    }
  }

  /** Forgetting the old members of a conversation and pointing the new ones repairs the reverse map. */
  lemma Repaired(convs: Conversations, before: map<string, string>, k: string, members: seq<Thread>,
                 during: map<string, string>, after: map<string, string>)
    requires Wf(convs) && Indexes(before, convs) && k in convs && members != [] && ConversationOk(members)
    requires forall j, x :: HasKey(members, x) && Holds(convs, j, x) ==> j == k
    requires Forgotten(before, convs[k], during)
    requires Repointed(during, members, Key(Latest(members)), after)
    ensures Wf(Replace(convs, k, members)) && Indexes(after, Replace(convs, k, members))
  {
    KeysOf(convs, before, k);
    ReplaceKeepsIndex(convs, before, k, members, after);
  }

  lemma UpdateFacts(phone: (string, string) -> bool, convs: Conversations, keys: map<string, string>, t: Thread)
    requires Wf(convs) && Indexes(keys, convs) && Coherent(convs, t) && t.eventType.Text? && Key(t) in keys
    ensures var k := keys[Key(t)];
            var members := Without(convs[k], t) + [t];
            && AddedMembers(phone, convs, t) == (k, members)
            && ConversationOk(members)
            && HasKey(convs[k], Key(t))
            && (forall j, x :: HasKey(members, x) && Holds(convs, j, x) ==> j == k)
  {
    var k := keys[Key(t)];
    assert Holds(convs, k, Key(t));
    AtHome(convs, Key(t), k);
    UpdatedMembersOk(convs[k], t);
    MembersOnlyIn(convs, k);
  }

  lemma AtHome(convs: Conversations, x: string, k: string)
    requires Wf(convs) && Holds(convs, k, x)
    ensures Cached(convs, x) && Home(convs, x) == k
  {
  }

  lemma JoinFacts(phone: (string, string) -> bool, convs: Conversations, keys: map<string, string>, t: Thread)
    requires Wf(convs) && Indexes(keys, convs) && Coherent(convs, t) && t.eventType.Text?
    requires Key(t) !in keys && MatchingKeys(phone, convs, t) != {}
    ensures var k := Least(MatchingKeys(phone, convs, t));
            var members := convs[k] + [t];
            && AddedMembers(phone, convs, t) == (k, members)
            && ConversationOk(members)
            && (forall j, x :: HasKey(members, x) && Holds(convs, j, x) ==> j == k)
  {
    var k := Least(MatchingKeys(phone, convs, t));
    AddedMembersOk(phone, convs, t);
    forall j, x | HasKey(convs[k] + [t], x) && Holds(convs, j, x) ensures j == k {
      assert x != Key(t);
    }
  }

  lemma AloneRepaired(phone: (string, string) -> bool, convs: Conversations, keys: map<string, string>, t: Thread)
    requires Wf(convs) && Indexes(keys, convs) && Coherent(convs, t) && t.eventType.Text?
    requires AddedMembers(phone, convs, t) == (Key(t), [t])
    ensures Added(phone, convs, t) == convs[Key(t) := [t]]
    ensures Wf(convs[Key(t) := [t]]) && Indexes(keys[Key(t) := Key(t)], convs[Key(t) := [t]])
  {
    AddedMembersOk(phone, convs, t);
    assert forall x :: HasKey([t], x) <==> x == Key(t);
    forall x | x in keys && x != Key(t) ensures keys[x] != Key(t) {
      assert Holds(convs, keys[x], x);
      assert !Holds(convs, Key(t), x);
    }
    assert Replace(convs, Key(t), [t]) == convs[Key(t) := [t]];
    ReplaceKeepsIndex(convs, keys, Key(t), [t], keys[Key(t) := Key(t)]);
  }

  lemma RemoveAbsent(keys: map<string, string>, x: string)
    requires x !in keys
    ensures keys - {x} == keys
  {
  }

  ghost predicate AllCoherent(convs: Conversations, threads: seq<Thread>) {
    && (forall i :: 0 <= i < |threads| && threads[i].eventType.Text? ==> Coherent(convs, threads[i]))
    && (forall i, j :: 0 <= i < j < |threads| && threads[i].eventType.Text? && threads[j].eventType.Text? ==>
                         Agree(threads[i], threads[j]))
  }

  ghost function AllAdded(phone: (string, string) -> bool, convs: Conversations, threads: seq<Thread>): Conversations
    decreases |threads|
  {
    if threads == [] then convs else AllAdded(phone, Added(phone, convs, threads[0]), threads[1..])
  }

  /** Every thread in the cache after an addition was there before or is the one added. */
  lemma AddedThreads(phone: (string, string) -> bool, convs: Conversations, t: Thread, k: string, u: Thread)
    requires Wf(convs) && k in Added(phone, convs, t) && u in Added(phone, convs, t)[k]
    ensures u == t || exists j :: j in convs && u in convs[j]
  {
  }

  lemma AddedKeepsCoherent(phone: (string, string) -> bool, convs: Conversations, threads: seq<Thread>)
    requires Wf(convs) && threads != [] && AllCoherent(convs, threads)
    ensures AllCoherent(Added(phone, convs, threads[0]), threads[1..])
  {
    var t := threads[0];
    forall i, k, u | 0 < i < |threads| && threads[i].eventType.Text?
                     && k in Added(phone, convs, t) && u in Added(phone, convs, t)[k]
      ensures Agree(u, threads[i])
    {
      if t.eventType.Text? { AddedThreads(phone, convs, t, k, u); }
    }
  }

  lemma RemoveFacts(convs: Conversations, k: string, t: Thread)
    requires Wf(convs) && Coherent(convs, t) && k in convs && HasKey(convs[k], Key(t))
    ensures var members := Without(convs[k], t);
            && Removed(convs, t) == Replace(convs, k, members)
            && (members != [] ==> ConversationOk(members))
            && (forall x :: HasKey(members, x) <==> HasKey(convs[k], x) && x != Key(t))
            && (forall j, x :: HasKey(members, x) && Holds(convs, j, x) ==> j == k)
  {
    RemovedIs(convs, k, t);
    WithoutMembersOk(convs[k], t);
    MembersOnlyIn(convs, k);
  }

  /** The conversation that holds t is the one a removal changes. */
  lemma RemovedIs(convs: Conversations, k: string, t: Thread)
    requires Wf(convs) && Holds(convs, k, Key(t))
    ensures Removed(convs, t) == Replace(convs, k, Without(convs[k], t))
  {
  }

  lemma MembersOnlyIn(convs: Conversations, k: string)
    requires Wf(convs) && k in convs
    ensures forall j, x :: HasKey(convs[k], x) && Holds(convs, j, x) ==> j == k
  {
    forall j, x | HasKey(convs[k], x) && Holds(convs, j, x) ensures j == k {
      assert Holds(convs, k, x);
    }
  }

  lemma NotDisplayed(convs: Conversations, k: string, t: Thread)
    requires Wf(convs) && Coherent(convs, t) && k in convs && Key(t) !in convs
    requires HasKey(convs[k], Key(t))
    ensures |convs[k]| > 1
    ensures Without(convs[k], t) != [] && Key(Latest(Without(convs[k], t))) == k
  {
    assert !SameThread(Latest(convs[k]), t);
    LatestWithout(convs[k], t);
  }

  lemma ForgottenTwice(convs: Conversations, before: map<string, string>, k: string, t: Thread,
                       during: map<string, string>)
    requires k in convs && HasKey(convs[k], Key(t))
    requires forall x :: HasKey(Without(convs[k], t), x) <==> HasKey(convs[k], x) && x != Key(t)
    requires Forgotten(before - {Key(t)}, Without(convs[k], t), during)
    ensures Forgotten(before, convs[k], during)
  {
  }

  /** Filing a conversation under the key of any of its members first makes no difference. */
  lemma ReplaceElsewhere(convs: Conversations, k: string, via: string, members: seq<Thread>)
    requires members != [] && (via in convs ==> via == k)
    ensures Replace((convs - {k})[via := members], via, members) == Replace(convs, k, members)
  {
  }

  lemma EmptyRepaired(convs: Conversations, before: map<string, string>, k: string, after: map<string, string>)
    requires Wf(convs) && Indexes(before, convs) && k in convs
    requires Forgotten(before, convs[k], after)
    ensures Wf(Replace(convs, k, [])) && Indexes(after, Replace(convs, k, []))
  {
    KeysOf(convs, before, k);
    ReplaceKeepsIndex(convs, before, k, [], after);
  }

  lemma ListsKey(threads: seq<Thread>, t: Thread)
    requires Lists(threads, t)
    ensures HasKey(threads, Key(t))
  {
  }

  lemma NotCached(convs: Conversations, t: Thread)
    requires Coherent(convs, t) && forall k :: k in convs ==> !Lists(convs[k], t)
    ensures !Cached(convs, Key(t))
  {
    forall k, u | k in convs && u in convs[k] ensures Key(u) != Key(t) {
      assert !Lists(convs[k], t);
      assert Agree(u, t) && !SameThread(u, t);
    }
  }

  lemma RemoveAbsentKey(convs: Conversations, x: string)
    requires x !in convs
    ensures convs - {x} == convs
  {
  }

  /** A member's key names a conversation only when it names its own. */
  lemma MemberKey(convs: Conversations, k: string, u: Thread)
    requires Wf(convs) && k in convs && u in convs[k]
    ensures Key(u) in convs ==> Key(u) == k
  {
    assert Holds(convs, k, Key(u));
    if Key(u) in convs { KeyIsHeld(convs, Key(u)); }
  }

  /** Here the old list is still filed under k, and is overwritten because k is the key the new list gets. */
  lemma ReplaceInside(convs: Conversations, k: string, via: string, members: seq<Thread>)
    requires members != [] && Key(Latest(members)) == k && (via in convs ==> via == k)
    ensures Replace(convs[via := members], via, members) == Replace(convs, k, members)
  {
  }

  lemma MemberRepaired(convs: Conversations, before: map<string, string>, k: string, t: Thread,
                       less: map<string, string>, after: map<string, string>)
    requires Wf(convs) && Indexes(before, convs) && Coherent(convs, t)
    requires k in convs && HasKey(convs[k], Key(t)) && Key(t) !in convs
    requires Without(convs[k], t) != [] && Repointed(less, Without(convs[k], t), k, after)
    requires Forgotten(before, [t], less)
    ensures Wf(Removed(convs, t)) && Indexes(after, Removed(convs, t))
  {
    var members := Without(convs[k], t);
    RemoveFacts(convs, k, t);
    NotDisplayed(convs, k, t);
    KeysOf(convs, before, k);
    RepointedKeys(before, k, convs[k], t, less, after);
    ReplaceKeepsIndex(convs, before, k, members, after);
  }

  lemma RepointedKeys(before: map<string, string>, k: string, threads: seq<Thread>, t: Thread,
                      less: map<string, string>, after: map<string, string>)
    requires forall x :: (x in before && before[x] == k) <==> HasKey(threads, x)
    requires forall x :: HasKey(Without(threads, t), x) <==> HasKey(threads, x) && x != Key(t)
    requires Forgotten(before, [t], less) && Repointed(less, Without(threads, t), k, after)
    requires HasKey(threads, Key(t))
    ensures forall x :: x in after <==> (x in before && before[x] != k) || HasKey(Without(threads, t), x)
    ensures forall x :: x in after ==> after[x] == if HasKey(Without(threads, t), x) then k else before[x]
  {
    forall x ensures x in after <==> (x in before && before[x] != k) || HasKey(Without(threads, t), x) {
      assert HasKey([t], x) <==> x == Key(t) by { if x == Key(t) { assert t in [t]; } }
      assert x in after <==> x in less || HasKey(Without(threads, t), x);
    }
  }

  lemma ForgottenOne(before: map<string, string>, t: Thread)
    ensures Forgotten(before, [t], before - {Key(t)})
  {
    assert forall x :: HasKey([t], x) <==> x == Key(t);
  }

  /** Dropping a key blindly, with whatever conversation is filed under it, from both maps. */
  lemma UngroupedRemoved(convs: Conversations, keys: map<string, string>, t: Thread)
    requires Wf(convs) && Indexes(keys, convs) && Coherent(convs, t) && !ShouldGroupThread(t)
    ensures Removed(convs, t) == convs - {Key(t)}
    ensures Wf(convs - {Key(t)}) && Indexes(keys - {Key(t)}, convs - {Key(t)})
  {
    BlindRemoval(convs, keys, Key(t));
    if Cached(convs, Key(t)) {
      var k := Home(convs, Key(t));
      assert AllAgree(convs[k], t);
      HeldBySame(convs[k], t);
      assert k == Key(convs[k][0]) == Key(t);
      assert Holds(convs, keys[Key(t)], Key(t));
    } else {
      if Key(t) in convs { KeyIsHeld(convs, Key(t)); }
      RemoveAbsentKey(convs, Key(t));
    }
  }

  /**
   * A text thread that is not grouped gets a conversation of its own, whatever its last version was. That keeps the
   * two maps in step exactly when no cached conversation of several threads holds its key.
   */
  lemma UngroupedUpdateExactly(convs: Conversations, keys: map<string, string>, t: Thread)
    requires Wf(convs) && Indexes(keys, convs) && t.eventType.Text?
    ensures var (after, x) := (convs[Key(t) := [t]], Key(t));
            Wf(after) && Indexes(keys[x := x], after) <==> (x in keys ==> |convs[keys[x]]| == 1)
  {
    var x := Key(t);
    if x !in keys || |convs[keys[x]]| == 1 {
      AloneInStep(convs, keys, t);
    } else if keys[x] == x {
      var y := OtherKey(convs, keys, x);
      assert keys[x := x][y] == x && !Holds(convs[x := [t]], x, y);
    } else {
      assert Holds(convs, keys[x], x);
      assert t in [t] && Holds(convs[x := [t]], x, x) && Holds(convs[x := [t]], keys[x], x);
    }
  }

  lemma AloneInStep(convs: Conversations, keys: map<string, string>, t: Thread)
    requires Wf(convs) && Indexes(keys, convs) && t.eventType.Text?
    requires Key(t) in keys ==> |convs[keys[Key(t)]]| == 1
    ensures Wf(convs[Key(t) := [t]]) && Indexes(keys[Key(t) := Key(t)], convs[Key(t) := [t]])
  {
    var x := Key(t);
    forall y ensures HasKey([t], y) <==> y == x {
      assert t in [t];
    }
    forall j | Holds(convs, j, x) ensures j == x {
      AloneAtHome(convs, keys, x, j);
    }
    forall y | y in keys && keys[y] == x ensures y == x {
      AloneHasOneKey(convs, keys, x, y);
    }
    assert Replace(convs, x, [t]) == convs[x := [t]];
    ReplaceKeepsIndex(convs, keys, x, [t], keys[x := x]);
  }

  lemma AloneAtHome(convs: Conversations, keys: map<string, string>, x: string, j: string)
    requires Wf(convs) && Indexes(keys, convs) && Holds(convs, j, x)
    requires x in keys ==> |convs[keys[x]]| == 1
    ensures j == x
  {
    assert Holds(convs, keys[x], x);
    assert j == keys[x] && Key(convs[j][0]) == x;
  }

  lemma AloneHasOneKey(convs: Conversations, keys: map<string, string>, x: string, y: string)
    requires Wf(convs) && Indexes(keys, convs) && y in keys && keys[y] == x
    requires x in keys ==> |convs[keys[x]]| == 1
    ensures y == x
  {
    assert Holds(convs, x, y);
    KeyIsHeld(convs, x);
    assert Holds(convs, keys[x], x);
  }

  /**
   * Removing a thread that is not grouped, which is what happens to every voice thread, drops its
   * key from both maps unseen. The two maps stay in step exactly when no cached conversation of
   * several threads holds that key, and nothing is lost exactly when no cached thread has it.
   */
  lemma BlindRemoval(convs: Conversations, keys: map<string, string>, x: string)
    requires Wf(convs) && Indexes(keys, convs)
    ensures (Wf(convs - {x}) && Indexes(keys - {x}, convs - {x})) <==> (x in keys ==> |convs[keys[x]]| == 1)
    ensures (convs - {x} == convs && keys - {x} == keys) <==> x !in keys
  {
    if x !in keys {
      if x in convs { KeyIsHeld(convs, x); }
      RemoveAbsent(keys, x);
      RemoveAbsentKey(convs, x);
    } else if |convs[keys[x]]| == 1 {
      BlindRemovalAlone(convs, keys, x);
    } else if x == keys[x] {
      BlindRemovalDisplayed(convs, keys, x);
    } else {
      BlindRemovalMember(convs, keys, x);
    }
  }

  lemma BlindRemovalAlone(convs: Conversations, keys: map<string, string>, x: string)
    requires Wf(convs) && Indexes(keys, convs) && x in keys && |convs[keys[x]]| == 1
    ensures Wf(convs - {x}) && Indexes(keys - {x}, convs - {x})
  {
    assert Holds(convs, keys[x], x);
    AloneAtHome(convs, keys, x, keys[x]);
    AloneForgotten(keys, convs[x], x);
    EmptyRepaired(convs, keys, x, keys - {x});
  }

  lemma AloneForgotten(keys: map<string, string>, members: seq<Thread>, x: string)
    requires |members| == 1 && HasKey(members, x)
    ensures Forgotten(keys, members, keys - {x})
  {
    assert members == [members[0]];
    ForgottenOne(keys, members[0]);
  }

  lemma BlindRemovalDisplayed(convs: Conversations, keys: map<string, string>, x: string)
    requires Wf(convs) && Indexes(keys, convs) && x in keys && keys[x] == x && |convs[x]| != 1
    ensures !Indexes(keys - {x}, convs - {x})
  {
    var y := OtherKey(convs, keys, x);
    assert y in keys - {x} && (keys - {x})[y] == x;
    assert !Holds(convs - {x}, x, y);
  }

  /** Another key that a conversation of several threads holds. */
  lemma OtherKey(convs: Conversations, keys: map<string, string>, x: string) returns (y: string)
    requires Wf(convs) && Indexes(keys, convs) && x in keys && keys[x] == x && |convs[x]| != 1
    ensures y != x && y in keys && keys[y] == x
  {
    assert Holds(convs, x, x);
    var u := if Key(convs[x][0]) == x then convs[x][1] else convs[x][0];
    y := Key(u);
    assert Key(convs[x][0]) != Key(convs[x][1]);
    assert u in convs[x] && Holds(convs, x, y);
    assert Holds(convs, keys[y], y);
  }

  lemma BlindRemovalMember(convs: Conversations, keys: map<string, string>, x: string)
    requires Wf(convs) && Indexes(keys, convs) && x in keys && keys[x] != x
    ensures !Indexes(keys - {x}, convs - {x})
  {
    var k := keys[x];
    assert Holds(convs, k, x);
    assert Holds(convs - {x}, k, x);
    assert x !in keys - {x};
  }
}
