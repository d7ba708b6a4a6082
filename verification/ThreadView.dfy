/** Reading stored threads page by page (sqlitehistorythreadview.cpp) and loading the cache from them. */
module ThreadView {
  import opened Threads
  import opened HistoryModel
  import opened Conversations
  import opened CacheRepair
  import opened ConversationRuns
  import opened ConversationOrder
  import opened ConversationCaches

  const PAGE_SIZE := 15

  predicate Blank(t: Thread) {
    Trimmed(t.threadId) == ""
  }

  /** shouldIncludeParticipants */
  predicate WithParticipants(t: Thread) {
    ProtocolFromAccountId(t.accountId) != "irc" || !t.chatType.Room?
  }

  /** The rows that satisfy keep, in their order. */
  function Where<T(!new)>(keep: T -> bool, rows: seq<T>): (r: seq<T>)
    ensures forall x :: x in r <==> x in rows && keep(x)
    ensures |r| <= |rows|
  {
    if rows == [] then []
    else (if keep(rows[0]) then [rows[0]] else []) + Where(keep, rows[1..])
  }

  lemma {:induction false} WhereSnoc<T(!new)>(keep: T -> bool, rows: seq<T>, x: T)
    ensures Where(keep, rows + [x]) == Where(keep, rows) + if keep(x) then [x] else []
  {
    if rows == [] {
      assert rows + [x] == [x] && [x][1..] == [];
    } else {
      assert (rows + [x])[1..] == rows[1..] + [x];
      WhereSnoc(keep, rows[1..], x);
    }
  }

  lemma {:induction false} WhereNone<T(!new)>(keep: T -> bool, rows: seq<T>)
    requires forall x :: x in rows ==> !keep(x)
    ensures Where(keep, rows) == []
  {
    if rows != [] { WhereNone(keep, rows[1..]); }
  }

  function NonBlank(rows: seq<Thread>): seq<Thread> {
    Where(t => !Blank(t), rows)
  }

  function Listed(): Thread -> bool {
    t => !Blank(t) && WithParticipants(t)
  }

  function Bare(): Thread -> bool {
    t => !Blank(t) && !WithParticipants(t)
  }

  /** parseThreadResults without grouping: blank rows are skipped, threads without participants come last. */
  function Parsed(rows: seq<Thread>): seq<Thread> {
    Where(Listed(), rows) + Where(Bare(), rows)
  }

  lemma {:induction false} ParsedIsNonBlank(rows: seq<Thread>)
    ensures multiset(Parsed(rows)) == multiset(NonBlank(rows))
  {
    if rows != [] {
      ParsedIsNonBlank(rows[1..]);
    }
  }

  /** A row with a thread id that is not blank. */
  predicate Shown(t: Thread) {
    exists k :: 0 <= k < |t.threadId| && !IsSpace(t.threadId[k])
  }

  predicate IrcRoom(t: Thread) {
    t.chatType == Room && ProtocolFromAccountId(t.accountId) == "irc"
  }

  /** Where among the first n rows those to be shown are, the irc rooms or the others. */
  ghost function Places(rows: seq<Thread>, n: nat, ircRooms: bool): set<nat>
    requires n <= |rows|
  {
    set k: nat | k < n && Shown(rows[k]) && IrcRoom(rows[k]) == ircRooms
  }

  /** Every row to be shown is in its place: after the earlier ones of its kind, and irc rooms after all others. */
  lemma ParsedPlaces(rows: seq<Thread>, i: nat)
    requires i < |rows| && Shown(rows[i])
    ensures var place := if IrcRoom(rows[i]) then |Places(rows, |rows|, false)| + |Places(rows, i, true)|
                         else |Places(rows, i, false)|;
            place < |Parsed(rows)| && Parsed(rows)[place] == rows[i]
    ensures |Parsed(rows)| == |Places(rows, |rows|, false)| + |Places(rows, |rows|, true)|
  {
    KindExactly(rows[i]);
    CountPlaces(rows, |rows|);
    CountPlaces(rows, i);
    WherePlace(if IrcRoom(rows[i]) then Bare() else Listed(), rows, i);
  }

  lemma KindExactly(t: Thread)
    ensures Listed()(t) <==> Shown(t) && !IrcRoom(t)
    ensures Bare()(t) <==> Shown(t) && IrcRoom(t)
  {
    BlankExactly(t.threadId);
  }

  lemma WherePlace<T(!new)>(keep: T -> bool, rows: seq<T>, i: nat)
    requires i < |rows| && keep(rows[i])
    ensures |Where(keep, rows[..i])| < |Where(keep, rows)|
    ensures Where(keep, rows)[|Where(keep, rows[..i])|] == rows[i]
  {
    var front := rows[..i] + [rows[i]];
    assert rows == front + rows[i + 1..];
    WhereSnoc(keep, rows[..i], rows[i]);
    WhereConcat(keep, front, rows[i + 1..]);
  }

  ghost function Kept<T(!new)>(keep: T -> bool, rows: seq<T>, n: nat): set<nat>
    requires n <= |rows|
  {
    set k: nat | k < n && keep(rows[k])
  }

  lemma KeptNext<T(!new)>(keep: T -> bool, rows: seq<T>, n: nat)
    requires 0 < n <= |rows|
    ensures |Kept(keep, rows, n)| == |Kept(keep, rows, n - 1)| + if keep(rows[n - 1]) then 1 else 0
  {
    var more := if keep(rows[n - 1]) then {n - 1} else {};
    assert Kept(keep, rows, n) == Kept(keep, rows, n - 1) + more;
  }

  lemma {:induction false} WhereCount<T(!new)>(keep: T -> bool, rows: seq<T>, n: nat)
    requires n <= |rows|
    ensures |Where(keep, rows[..n])| == |Kept(keep, rows, n)|
  {
    if n > 0 {
      WhereCount(keep, rows, n - 1);
      KeptNext(keep, rows, n);
      assert rows[..n] == rows[..n - 1] + [rows[n - 1]];
      WhereSnoc(keep, rows[..n - 1], rows[n - 1]);
    }
  }

  lemma KeptPlaces(rows: seq<Thread>, n: nat)
    requires n <= |rows|
    ensures Kept(Listed(), rows, n) == Places(rows, n, false)
    ensures Kept(Bare(), rows, n) == Places(rows, n, true)
  {
    forall k: nat | k < n
      ensures k in Kept(Listed(), rows, n) <==> k in Places(rows, n, false)
      ensures k in Kept(Bare(), rows, n) <==> k in Places(rows, n, true)
    {
      KindExactly(rows[k]);
    }
  }

  lemma CountPlaces(rows: seq<Thread>, n: nat)
    requires n <= |rows|
    ensures |Where(Listed(), rows[..n])| == |Places(rows, n, false)|
    ensures |Where(Bare(), rows[..n])| == |Places(rows, n, true)|
    ensures rows[..|rows|] == rows
  {
    KeptPlaces(rows, n);
    WhereCount(Listed(), rows, n);
    WhereCount(Bare(), rows, n);
  }

  method ParseThreadResults(rows: seq<Thread>) returns (threads: seq<Thread>)
    ensures threads == Parsed(rows)
  {
    threads := [];
    var threadsWithoutParticipants := [];
    for i := 0 to |rows|
      invariant threads == Where(Listed(), rows[..i])
      invariant threadsWithoutParticipants == Where(Bare(), rows[..i])
    {
      var thread := rows[i];
      assert rows[..i + 1] == rows[..i] + [thread];
      WhereSnoc(Listed(), rows[..i], thread);
      WhereSnoc(Bare(), rows[..i], thread);
      if Blank(thread) {
        continue;
      }
      if !WithParticipants(thread) {
        threadsWithoutParticipants := threadsWithoutParticipants + [thread];
      } else {
        threads := threads + [thread];
      }
    }
    assert rows[..|rows|] == rows;
    threads := threads + threadsWithoutParticipants;
  }

  // ---------------------------------------------------------------- paging

  function PageEnd(n: nat): nat {
    if n < PAGE_SIZE then n else PAGE_SIZE
  }

  /** A view over the snapshot of rows taken when it was made. Whether its statements succeed is given by outcome. */
  class ThreadView {
    const rows: seq<Thread>
    const outcome: nat -> bool
    var calls: nat
    var mOffset: nat
    var mValid: bool

    /** created says whether the snapshot could be taken. */
    constructor (rows: seq<Thread>, created: bool, outcome: nat -> bool)
      ensures this.rows == rows && this.outcome == outcome && mOffset == 0 && mValid == created
    {
      this.rows, this.outcome := rows, outcome;
      calls, mOffset, mValid := 0, 0, created;
    }

    /** The rows not read yet. */
    function Left(): seq<Thread>
      reads this
    {
      if mOffset <= |rows| then rows[mOffset..] else []
    }

    /** NextPage: LIMIT and OFFSET over the snapshot; a failing statement invalidates the view and yields nothing. */
    method NextPage() returns (threads: seq<Thread>)
      modifies this
      ensures mValid == (old(mValid) && outcome(old(calls)))
      ensures !outcome(old(calls)) ==> threads == [] && Left() == old(Left())
      ensures outcome(old(calls)) ==>
                && threads == Parsed(old(Left())[..PageEnd(|old(Left())|)])
                && Left() == old(Left())[PageEnd(|old(Left())|)..]
    {
      var success := outcome(calls);
      calls := calls + 1;
      if !success {
        mValid := false;
        return [];
      }
      var page := if mOffset >= |rows| then []
                  else if mOffset + PAGE_SIZE <= |rows| then rows[mOffset..mOffset + PAGE_SIZE]
                  else rows[mOffset..];
      assert page == Left()[..PageEnd(|Left()|)];
      threads := ParseThreadResults(page);
      mOffset := mOffset + PAGE_SIZE;
    }
  }

  /** What reading pages until an empty one comes collects. */
  function Loaded(rows: seq<Thread>): seq<Thread>
    decreases |rows|
  {
    var n := PageEnd(|rows|);
    var page := Parsed(rows[..n]);
    if page == [] then [] else page + Loaded(rows[n..])
  }

  lemma LoadedStep(rows: seq<Thread>, page: seq<Thread>)
    requires page == Parsed(rows[..PageEnd(|rows|)])
    ensures Loaded(rows) == if page == [] then [] else page + Loaded(rows[PageEnd(|rows|)..])
    ensures page != [] ==> PageEnd(|rows|) > 0
  {
    if PageEnd(|rows|) == 0 { assert rows[..PageEnd(|rows|)] == []; }
  }

  /** One page of the loop of updateGroupedThreadsCache. */
  method ReadPage(view: ThreadView) returns (page: seq<Thread>)
    requires view.mValid
    modifies view
    ensures view.mValid ==> Loaded(old(view.Left())) == page + if page == [] then [] else Loaded(view.Left())
    ensures !view.mValid ==> page == []
    ensures page != [] ==> |view.Left()| < |old(view.Left())|
  {
    ghost var left := view.Left();
    page := view.NextPage();
    if view.mValid { LoadedStep(left, page); }
  }

  lemma Regroup<T>(a: seq<T>, b: seq<T>, c: seq<T>)
    ensures a + (b + c) == (a + b) + c
  {
  }

  /** The loop of updateGroupedThreadsCache: everything, or what came before the statement that failed. */
  method ReadAllPages(view: ThreadView) returns (threads: seq<Thread>)
    modifies view
    ensures view.mValid ==> threads == Loaded(old(view.Left()))
    ensures threads <= Loaded(old(view.Left()))
  {
    threads := [];
    ghost var all := Loaded(view.Left());
    while view.mValid
      invariant view.mValid ==> all == threads + Loaded(view.Left())
      invariant threads <= all
      decreases |view.Left()|
    {
      var page := ReadPage(view);
      if |page| > 0 {
        Regroup(threads, page, Loaded(view.Left()));
        threads := threads + page;
      } else {
        break;
      }
    }
  }

  method UpdateGroupedThreadsCache(view: ThreadView, cache: ConversationCache)
    requires cache.Valid() && AllCoherent(cache.mConversationsCache, Loaded(view.Left()))
    modifies view, cache
    ensures cache.Valid()
    ensures exists n: nat :: n <= |Loaded(old(view.Left()))|
              && (view.mValid ==> n == |Loaded(old(view.Left()))|)
              && cache.mConversationsCache
                 == AllAdded(cache.phone, old(cache.mConversationsCache), Loaded(old(view.Left()))[..n])
  {
    ghost var all := Loaded(view.Left());
    var threads := ReadAllPages(view);
    assert threads == all[..|threads|] && (view.mValid ==> all[..|threads|] == all);
    cache.AddThreadsToCache(threads);
  }

  /** A page of nothing but blank rows comes only when all rows after it are blank too. */
  predicate NoBlankGap(rows: seq<Thread>)
    decreases |rows|
  {
    rows == [] ||
    var n := PageEnd(|rows|);
    if NonBlank(rows[..n]) == [] then NonBlank(rows) == [] else NoBlankGap(rows[n..])
  }

  lemma {:induction false} WhereConcat<T(!new)>(keep: T -> bool, a: seq<T>, b: seq<T>)
    ensures Where(keep, a + b) == Where(keep, a) + Where(keep, b)
  {
    if a == [] {
      assert a + b == b;
    } else {
      assert (a + b)[1..] == a[1..] + b;
      WhereConcat(keep, a[1..], b);
    }
  }

  lemma NonBlankParts(rows: seq<Thread>, n: nat)
    requires n <= |rows|
    ensures NonBlank(rows) == NonBlank(rows[..n]) + NonBlank(rows[n..])
  {
    assert rows == rows[..n] + rows[n..];
    WhereConcat(t => !Blank(t), rows[..n], rows[n..]);
  }

  lemma CancelMultiset<T>(p: multiset<T>, q: multiset<T>, r: multiset<T>)
    ensures p + q == p + r <==> q == r
  {
    assert (p + q) - p == q && (p + r) - p == r;
  }

  lemma SameMultisetEmpty(a: seq<Thread>, b: seq<Thread>)
    requires multiset(a) == multiset(b)
    ensures a == [] <==> b == []
  {
    assert |multiset(a)| == |a| && |multiset(b)| == |b|;
  }

  /** Everything collected is stored; nothing is collected twice. */
  lemma {:induction false} LoadedIsStored(rows: seq<Thread>)
    ensures multiset(Loaded(rows)) <= multiset(NonBlank(rows))
    decreases |rows|
  {
    var n := PageEnd(|rows|);
    ParsedIsNonBlank(rows[..n]);
    if Parsed(rows[..n]) != [] {
      LoadedIsStored(rows[n..]);
      NonBlankParts(rows, n);
    }
  }

  /**
   * The loop reads every stored thread exactly once, up to order, exactly when no page of blank rows comes before
   * one.
   */
  lemma {:induction false} LoadedCompletely(rows: seq<Thread>)
    ensures multiset(Loaded(rows)) == multiset(NonBlank(rows)) <==> NoBlankGap(rows)
    decreases |rows|
  {
    var n := PageEnd(|rows|);
    ParsedIsNonBlank(rows[..n]);
    SameMultisetEmpty(Parsed(rows[..n]), NonBlank(rows[..n]));
    if Parsed(rows[..n]) == [] {
      SameMultisetEmptyTo(NonBlank(rows));
    } else {
      LoadedCompletely(rows[n..]);
      NonBlankParts(rows, n);
      CancelMultiset(multiset(Parsed(rows[..n])), multiset(Loaded(rows[n..])), multiset(NonBlank(rows[n..])));
    }
  }

  lemma SameMultisetEmptyTo(a: seq<Thread>)
    ensures multiset(a) == multiset([]) <==> a == []
  {
    if multiset(a) == multiset([]) { SameMultisetEmpty(a, []); }
  }

  /** Without blank rows the loading is always complete. */
  lemma {:induction false} NoBlankRows(rows: seq<Thread>)
    requires forall t :: t in rows ==> !Blank(t)
    ensures NoBlankGap(rows) && NonBlank(rows) == rows
    decreases |rows|
  {
    if rows != [] {
      var n := PageEnd(|rows|);
      NoBlankRows(rows[n..]);
      NoBlankRows(rows[1..]);
      assert rows[0] in NonBlank(rows[..n]) by { assert rows[..n][0] == rows[0]; }
    }
  }

  /** A page of blank rows hides the thread stored after it. */
  lemma BlankPageHidesThread(blank: Thread, t: Thread)
    requires Blank(blank) && !Blank(t)
    ensures var rows := seq(15, _ => blank) + [t];
            Loaded(rows) == [] && NonBlank(rows) == [t]
  {
    var page := seq(PAGE_SIZE, _ => blank);
    var rows := page + [t];
    assert rows[..PageEnd(|rows|)] == page;
    assert forall u :: u in page ==> Blank(u);
    WhereNone(Listed(), page);
    WhereNone(Bare(), page);
    WhereNone((u: Thread) => !Blank(u), page);
    WhereConcat((u: Thread) => !Blank(u), page, [t]);
    assert [t][1..] == [];
  }

  /** So the cache starts as the conversations of the stored text threads: it holds those and no others. */
  lemma LoadedCacheHoldsStore(phone: (string, string) -> bool, rows: seq<Thread>, u: Thread)
    requires NoBlankGap(rows) && DistinctKeys(NonBlank(rows)) && forall t :: t in rows ==> t.eventType.Text?
    ensures Wf(AllAdded(phone, map[], Loaded(rows)))
    ensures InCache(AllAdded(phone, map[], Loaded(rows)), u) <==> u in rows && !Blank(u)
  {
    LoadedCompletely(rows);
    PermutedTexts(Loaded(rows), NonBlank(rows));
    AllAddedContent(phone, map[], Loaded(rows));
  }
}
