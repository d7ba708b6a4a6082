/** Listing threads grouped: one row for each conversation, and no message lost (parseThreadResults, data). */
module GroupedListing {
  import opened Threads
  import opened Conversations
  import opened ConversationRuns
  import opened Permutations
  import ThreadView

  /** A listed row with the grouped threads attached to it. */
  datatype GroupedRow = GroupedRow(thread: Thread, groupedThreads: seq<Thread>)

  /** The rows that are shown, in their order: those that are not blank and whose key is that of a conversation. */
  function Shown(convs: Conversations, rows: seq<Thread>): seq<GroupedRow> {
    if rows == [] then [] else RowFor(convs, rows[0]) + Shown(convs, rows[1..])
  }

  function RowFor(convs: Conversations, t: Thread): seq<GroupedRow> {
    if ThreadView.Blank(t) || Key(t) !in convs then [] else [GroupedRow(t, convs[Key(t)])]
  }

  /** parseThreadResults when grouping, for text threads once the cache is there: rows without participants last. */
  function Listing(convs: Conversations, rows: seq<Thread>): seq<GroupedRow> {
    Shown(convs, ThreadView.Parsed(rows))
  }

  lemma {:induction false} ShownConcat(convs: Conversations, a: seq<Thread>, b: seq<Thread>)
    ensures Shown(convs, a + b) == Shown(convs, a) + Shown(convs, b)
  {
    if a == [] {
      assert a + b == b;
    } else {
      assert (a + b)[1..] == a[1..] + b;
      ShownConcat(convs, a[1..], b);
    }
  }

  /** The rows shown among those that keep selects. */
  function ShownOf(convs: Conversations, keep: Thread -> bool, rows: seq<Thread>): seq<GroupedRow> {
    Shown(convs, ThreadView.Where(keep, rows))
  }

  /** One more row of the query. */
  lemma ShownNext(convs: Conversations, keep: Thread -> bool, rows: seq<Thread>, i: nat)
    requires i < |rows|
    ensures ShownOf(convs, keep, rows[..i + 1])
         == ShownOf(convs, keep, rows[..i]) + if keep(rows[i]) then RowFor(convs, rows[i]) else []
  {
    var t := rows[i];
    assert rows[..i + 1] == rows[..i] + [t];
    ThreadView.WhereSnoc(keep, rows[..i], t);
    ShownConcat(convs, ThreadView.Where(keep, rows[..i]), if keep(t) then [t] else []);
    assert [t][1..] == [] && Shown(convs, [t]) == RowFor(convs, t) + [];
  }

  function RowThreads(listing: seq<GroupedRow>): (r: seq<Thread>)
    ensures |r| == |listing|
  {
    seq(|listing|, i requires 0 <= i < |listing| => listing[i].thread)
  }

  /** Listed are the parsed rows whose keys are those of conversations, in the order in which they are parsed. */
  lemma ListingInOrder(convs: Conversations, rows: seq<Thread>)
    ensures RowThreads(Listing(convs, rows))
         == ThreadView.Where((t: Thread) => Key(t) in convs, ThreadView.Parsed(rows))
  {
    forall t | t in ThreadView.Parsed(rows) ensures ThreadView.Shown(t) {
      ThreadView.KindExactly(t);
    }
    ShownInOrder(convs, ThreadView.Parsed(rows));
  }

  lemma {:induction false} ShownInOrder(convs: Conversations, rows: seq<Thread>)
    requires forall t :: t in rows ==> ThreadView.Shown(t)
    ensures RowThreads(Shown(convs, rows)) == ThreadView.Where((t: Thread) => Key(t) in convs, rows)
  {
    if rows != [] {
      ThreadView.KindExactly(rows[0]);
      ShownInOrder(convs, rows[1..]);
      RowThreadsConcat(RowFor(convs, rows[0]), Shown(convs, rows[1..]));
      assert RowThreads(RowFor(convs, rows[0])) == if Key(rows[0]) in convs then [rows[0]] else [];
    }
  }

  lemma RowThreadsConcat(a: seq<GroupedRow>, b: seq<GroupedRow>)
    ensures RowThreads(a + b) == RowThreads(a) + RowThreads(b)
  {
  }

  method ListGrouped(convs: Conversations, rows: seq<Thread>) returns (listing: seq<GroupedRow>)
    ensures listing == Listing(convs, rows)
  {
    listing := [];
    var withoutParticipants := [];
    for i := 0 to |rows|
      invariant listing == ShownOf(convs, ThreadView.Listed(), rows[..i])
      invariant withoutParticipants == ShownOf(convs, ThreadView.Bare(), rows[..i])
    {
      var t := rows[i];
      ShownNext(convs, ThreadView.Listed(), rows, i);
      ShownNext(convs, ThreadView.Bare(), rows, i);
      if ThreadView.Blank(t) || Key(t) !in convs {
        continue;
      }
      if !ThreadView.WithParticipants(t) {
        withoutParticipants := withoutParticipants + [GroupedRow(t, convs[Key(t)])];
      } else {
        listing := listing + [GroupedRow(t, convs[Key(t)])];
      }
    }
    assert rows[..|rows|] == rows;
    ShownConcat(convs, ThreadView.Where(ThreadView.Listed(), rows), ThreadView.Where(ThreadView.Bare(), rows));
    listing := listing + withoutParticipants;
  }

  /** The sum over the members that the model's data reports for a group. */
  function Total(f: Thread -> int, threads: seq<Thread>): int {
    if threads == [] then 0 else f(threads[0]) + Total(f, threads[1..])
  }

  method GroupTotal(f: Thread -> int, threads: seq<Thread>) returns (count: int)
    ensures count == Total(f, threads)
  {
    count := 0;
    assert threads[0..] == threads;
    for i := 0 to |threads|
      invariant Total(f, threads) == count + Total(f, threads[i..])
    {
      assert threads[i..][0] == threads[i] && threads[i..][1..] == threads[i + 1..];
      count := count + f(threads[i]);
    }
  }

  function Attached(listing: seq<GroupedRow>): seq<Thread> {
    if listing == [] then [] else listing[0].groupedThreads + Attached(listing[1..])
  }

  function ListedTotal(f: Thread -> int, listing: seq<GroupedRow>): int {
    if listing == [] then 0 else Total(f, listing[0].groupedThreads) + ListedTotal(f, listing[1..])
  }

  // ---------------------------------------------------------------- sums

  lemma {:induction false} TotalConcat(f: Thread -> int, a: seq<Thread>, b: seq<Thread>)
    ensures Total(f, a + b) == Total(f, a) + Total(f, b)
  {
    if a == [] {
      assert a + b == b;
    } else {
      assert (a + b)[1..] == a[1..] + b;
      TotalConcat(f, a[1..], b);
    }
  }

  lemma {:induction false} TotalOfPermutation(f: Thread -> int, p: seq<Thread>, s: seq<Thread>)
    requires Permutation(p, s)
    ensures Total(f, p) == Total(f, s)
    decreases |s|
  {
    PermutationElements(p, s);
    if s != [] {
      var x := s[0];
      assert x in p;
      var i :| 0 <= i < |p| && p[i] == x;
      PermutationTail(p, s, i);
      TotalOfPermutation(f, p[..i] + p[i + 1..], s[1..]);
      TotalWithout(f, p, i);
    }
  }

  lemma TotalWithout(f: Thread -> int, p: seq<Thread>, i: nat)
    requires i < |p|
    ensures Total(f, p) == f(p[i]) + Total(f, p[..i] + p[i + 1..])
  {
    var a, x, b := p[..i], p[i], p[i + 1..];
    assert p == a + ([x] + b);
    TotalConcat(f, a, b);
    TotalConcat(f, a, [x] + b);
    assert ([x] + b)[1..] == b;
  }

  lemma {:induction false} ListedTotalIsTotal(f: Thread -> int, listing: seq<GroupedRow>)
    ensures ListedTotal(f, listing) == Total(f, Attached(listing))
  {
    if listing != [] {
      ListedTotalIsTotal(f, listing[1..]);
      TotalConcat(f, listing[0].groupedThreads, Attached(listing[1..]));
    }
  }

  // ---------------------------------------------------------------- every thread exactly once

  /** The cached threads are exactly the stored ones, none with a blank id, and the keys tell the rows apart. */
  ghost predicate CacheIsStore(convs: Conversations, rows: seq<Thread>) {
    && Wf(convs) && DistinctKeys(rows)
    && (forall u :: InCache(convs, u) <==> u in rows)
    && (forall u :: u in rows ==> !ThreadView.Blank(u))
  }

  lemma {:induction false} ShownMeaning(convs: Conversations, rows: seq<Thread>, g: GroupedRow)
    ensures g in Shown(convs, rows) <==>
              && g.thread in rows && !ThreadView.Blank(g.thread)
              && Key(g.thread) in convs && g.groupedThreads == convs[Key(g.thread)]
  {
    if rows != [] {
      ShownMeaning(convs, rows[1..], g);
      assert rows == [rows[0]] + rows[1..];
    }
  }

  ghost predicate DistinctRows(listing: seq<GroupedRow>) {
    forall i, j :: 0 <= i < j < |listing| ==> Key(listing[i].thread) != Key(listing[j].thread)
  }

  lemma {:induction false} ShownDistinct(convs: Conversations, rows: seq<Thread>)
    requires DistinctKeys(rows)
    ensures DistinctRows(Shown(convs, rows))
  {
    if rows != [] {
      ShownDistinct(convs, rows[1..]);
      forall g | g in Shown(convs, rows[1..]) ensures Key(g.thread) != Key(rows[0]) {
        ShownMeaning(convs, rows[1..], g);
        var i :| 0 <= i < |rows| - 1 && rows[1..][i] == g.thread;
        assert rows[i + 1] == g.thread;
      }
    }
  }

  /** Parsing only rearranges the stored rows. */
  lemma ParsedStore(convs: Conversations, rows: seq<Thread>)
    requires CacheIsStore(convs, rows)
    ensures CacheIsStore(convs, ThreadView.Parsed(rows)) && Permutation(ThreadView.Parsed(rows), rows)
  {
    ThreadView.ParsedIsNonBlank(rows);
    ThreadView.NoBlankRows(rows);
    PermutationElements(ThreadView.Parsed(rows), rows);
    DistinctKeysDistinct(rows);
    PermutationDistinct(ThreadView.Parsed(rows), rows);
    DistinctElementsDistinctKeys(rows, ThreadView.Parsed(rows));
  }

  lemma DistinctElementsDistinctKeys(rows: seq<Thread>, other: seq<Thread>)
    requires DistinctKeys(rows) && (forall u :: u in other ==> u in rows)
    requires forall i, j :: 0 <= i < j < |other| ==> other[i] != other[j]
    ensures DistinctKeys(other)
  {
    forall i, j | 0 <= i < j < |other| ensures Key(other[i]) != Key(other[j]) {
      assert other[i] in other && other[j] in other;
      var k :| 0 <= k < |rows| && rows[k] == other[i];
      var l :| 0 <= l < |rows| && rows[l] == other[j];
    }
  }

  /** One row for each conversation, showing its displayed thread. */
  lemma OneRowPerConversation(convs: Conversations, rows: seq<Thread>, k: string)
    requires CacheIsStore(convs, rows)
    ensures k in convs <==> exists g :: g in Listing(convs, rows) && Key(g.thread) == k
    ensures k in convs ==> GroupedRow(Latest(convs[k]), convs[k]) in Listing(convs, rows)
    ensures DistinctRows(Listing(convs, rows))
  {
    ParsedStore(convs, rows);
    OneRowShown(convs, ThreadView.Parsed(rows), k);
  }

  lemma OneRowShown(convs: Conversations, rows: seq<Thread>, k: string)
    requires CacheIsStore(convs, rows)
    ensures k in convs <==> exists g :: g in Shown(convs, rows) && Key(g.thread) == k
    ensures k in convs ==> GroupedRow(Latest(convs[k]), convs[k]) in Shown(convs, rows)
    ensures DistinctRows(Shown(convs, rows))
  {
    ShownDistinct(convs, rows);
    if k in convs {
      var d := Latest(convs[k]);
      assert InCache(convs, d);
      ShownMeaning(convs, rows, GroupedRow(d, convs[k]));
    }
    if g :| g in Shown(convs, rows) && Key(g.thread) == k { ShownMeaning(convs, rows, g); }
  }

  lemma {:induction false} AttachedElements(listing: seq<GroupedRow>, u: Thread)
    ensures u in Attached(listing) <==> exists g :: g in listing && u in g.groupedThreads
  {
    if listing != [] {
      AttachedElements(listing[1..], u);
      assert listing == [listing[0]] + listing[1..];
    }
  }

  lemma {:induction false} AttachedDistinct(convs: Conversations, listing: seq<GroupedRow>)
    requires Wf(convs) && DistinctRows(listing)
    requires forall g :: g in listing ==> Key(g.thread) in convs && g.groupedThreads == convs[Key(g.thread)]
    ensures DistinctKeys(Attached(listing))
  {
    if listing != [] {
      var head, rest := listing[0], listing[1..];
      assert head in listing && forall g :: g in rest ==> g in listing;
      AttachedDistinct(convs, rest);
      forall u, v | u in head.groupedThreads && v in Attached(rest) ensures Key(u) != Key(v) {
        AttachedElements(rest, v);
        var g :| g in rest && v in g.groupedThreads;
        OtherRow(listing, g);
        assert Holds(convs, Key(head.thread), Key(u)) && Holds(convs, Key(g.thread), Key(v));
      }
      DistinctBoth(head.groupedThreads, Attached(rest));
    }
  }

  lemma OtherRow(listing: seq<GroupedRow>, g: GroupedRow)
    requires DistinctRows(listing) && listing != [] && g in listing[1..]
    ensures Key(listing[0].thread) != Key(g.thread)
  {
    var i :| 0 <= i < |listing| - 1 && listing[1..][i] == g;
    assert listing[i + 1] == g;
  }

  lemma DistinctBoth(a: seq<Thread>, b: seq<Thread>)
    requires DistinctKeys(a) && DistinctKeys(b) && forall u, v :: u in a && v in b ==> Key(u) != Key(v)
    ensures DistinctKeys(a + b)
  {
  }

  lemma DistinctKeysDistinct(s: seq<Thread>)
    requires DistinctKeys(s)
    ensures forall i, j :: 0 <= i < j < |s| ==> s[i] != s[j]
  {
  }

  /** The attached lists hold every stored thread exactly once. */
  lemma AttachedIsStore(convs: Conversations, rows: seq<Thread>)
    requires CacheIsStore(convs, rows)
    ensures Permutation(Attached(Listing(convs, rows)), rows)
  {
    ParsedStore(convs, rows);
    AttachedShown(convs, ThreadView.Parsed(rows));
  }

  lemma AttachedShown(convs: Conversations, rows: seq<Thread>)
    requires CacheIsStore(convs, rows)
    ensures Permutation(Attached(Shown(convs, rows)), rows)
  {
    var listing := Shown(convs, rows);
    ShownDistinct(convs, rows);
    forall g | g in listing ensures Key(g.thread) in convs && g.groupedThreads == convs[Key(g.thread)] {
      ShownMeaning(convs, rows, g);
    }
    AttachedDistinct(convs, listing);
    DistinctKeysDistinct(Attached(listing));
    DistinctKeysDistinct(rows);
    forall u ensures u in Attached(listing) <==> u in rows {
      AttachedElements(listing, u);
      if u in rows {
        var k :| k in convs && u in convs[k];
        OneRowShown(convs, rows, k);
      }
      if g :| g in listing && u in g.groupedThreads { assert InCache(convs, u); }
    }
    SameElementsPermutation(Attached(listing), rows);
  }

  /** Counts and unread counts, summed over the groups, are those of all stored threads. */
  lemma GroupedTotals(convs: Conversations, rows: seq<Thread>)
    requires CacheIsStore(convs, rows)
    ensures ListedTotal((t: Thread) => t.count, Listing(convs, rows)) == Total((t: Thread) => t.count, rows)
    ensures ListedTotal((t: Thread) => t.unreadCount, Listing(convs, rows)) == Total((t: Thread) => t.unreadCount, rows)
  {
    AttachedIsStore(convs, rows);
    var listing := Listing(convs, rows);
    ListedTotalIsTotal((t: Thread) => t.count, listing);
    ListedTotalIsTotal((t: Thread) => t.unreadCount, listing);
    TotalOfPermutation((t: Thread) => t.count, Attached(listing), rows);
    TotalOfPermutation((t: Thread) => t.unreadCount, Attached(listing), rows);
  }
}
