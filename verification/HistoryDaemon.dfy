/** Removing events and the threads they leave empty, in one batch (historydaemon.cpp). */
module HistoryDaemon {
  import opened Permutations
  import opened Strings
  import opened Threads
  import opened HistoryModel

  datatype ThreadRef = ThreadRef(eventType: EventType, accountId: string, threadId: string)

  datatype EventRef = EventRef(eventType: EventType, accountId: string, threadId: string, eventId: string)

  function ThreadOf(e: EventRef): ThreadRef {
    ThreadRef(e.eventType, e.accountId, e.threadId)
  }

  /**
   * The stored threads, and for each stored event whether the thread's count includes it (information messages are
   * not counted).
   */
  datatype Database = Database(threads: set<ThreadRef>, events: map<EventRef, bool>)

  function Counted(db: Database, t: ThreadRef): set<EventRef> {
    set e | e in db.events && db.events[e] && ThreadOf(e) == t
  }

  function Count(db: Database, t: ThreadRef): nat {
    |Counted(db, t)|
  }

  function WithoutEvents(db: Database, es: set<EventRef>): Database {
    db.(events := db.events - es)
  }

  /** Deleting threads deletes their events with them. */
  function WithoutThreads(db: Database, ts: set<ThreadRef>): Database {
    Database(db.threads - ts, map e | e in db.events && ThreadOf(e) !in ts :: db.events[e])
  }

  /** hashThread */
  function HashThread(t: ThreadRef): string {
    (match t.eventType case Text => "0" case Voice => "1" case NullEvent => "2")
    + "#-#" + t.accountId + "#-#" + t.threadId
  }

  /** What getSingleThread can find without grouping: ids that are not blank, and a real event type. */
  predicate Visible(db: Database, t: ThreadRef) {
    t in db.threads && !t.eventType.NullEvent? && t.accountId != "" && Trimmed(t.threadId) != ""
  }

  /** The storage plugin. The answers of the database to the statements are given by outcome. */
  class Backend {
    const outcome: nat -> bool
    var calls: nat
    var db: Database
    var saved: Database

    constructor (db: Database, outcome: nat -> bool)
      ensures this.db == db && this.outcome == outcome
    {
      this.outcome := outcome;
      calls := 0;
      this.db, saved := db, db;
    }

    method BeginBatchOperation()
      modifies this`saved
      ensures saved == db
    {
      saved := db;
    }

    method RollbackBatchOperation()
      modifies this`db
      ensures db == old(saved)
    {
      db := saved;
    }

    method EndBatchOperation()
      modifies this`saved
      ensures saved == db
    {
      saved := db;
    }

    /** Every statement executed from this one on succeeded. */
    ghost predicate AllSucceeded(from: nat)
      reads this`calls
    {
      forall n :: from <= n < calls ==> outcome(n)
    }

    method Exec() returns (success: bool)
      modifies this`calls
      ensures calls == old(calls) + 1 && (success <==> AllSucceeded(old(calls)))
    {
      success := outcome(calls);
      calls := calls + 1;
    }

    method RemoveTextEvent(e: EventRef) returns (success: bool)
      modifies this`db, this`calls
      ensures calls == old(calls) + 1 && (success <==> AllSucceeded(old(calls)))
      ensures db == if success then WithoutEvents(old(db), {e.(eventType := Text)}) else old(db)
    {
      success := Exec();
      if success { db := WithoutEvents(db, {e.(eventType := Text)}); }
    }

    method RemoveVoiceEvent(e: EventRef) returns (success: bool)
      modifies this`db, this`calls
      ensures calls == old(calls) + 1 && (success <==> AllSucceeded(old(calls)))
      ensures db == if success then WithoutEvents(old(db), {e.(eventType := Voice)}) else old(db)
    {
      success := Exec();
      if success { db := WithoutEvents(db, {e.(eventType := Voice)}); }
    }

    method RemoveThread(t: ThreadRef) returns (success: bool)
      modifies this`db, this`calls
      ensures calls == old(calls) + 1 && (success <==> AllSucceeded(old(calls)))
      ensures db == if success then WithoutThreads(old(db), {t}) else old(db)
    {
      success := Exec();
      if success { db := WithoutThreads(db, {t}); }
    }

    method GetSingleThread(t: ThreadRef) returns (found: bool, count: nat)
      ensures found == Visible(db, t) && (found ==> count == Count(db, t))
    {
      if t.accountId == "" || t.threadId == "" || t.eventType.NullEvent? {
        return false, 0;
      }
      if t !in db.threads || Trimmed(t.threadId) == "" {
        return false, 0;
      }
      return true, Count(db, t);
    }
  }

  // ---------------------------------------------------------------- what a removal amounts to

  function Removable(events: seq<EventRef>): set<EventRef> {
    set e | e in events && !e.eventType.NullEvent?
  }

  /** The existing threads that the request mentions. */
  function Touched(db: Database, events: seq<EventRef>): set<ThreadRef> {
    set t | t in db.threads && Visible(db, t) && exists e :: e in events && ThreadOf(e) == t
  }

  function EmptyOf(db: Database, ts: set<ThreadRef>): set<ThreadRef> {
    set t | t in ts && Count(db, t) == 0
  }

  function BusyOf(db: Database, ts: set<ThreadRef>): set<ThreadRef> {
    set t | t in ts && Count(db, t) > 0
  }

  function Emptied(db: Database, events: seq<EventRef>): set<ThreadRef> {
    EmptyOf(WithoutEvents(db, Removable(events)), Touched(db, events))
  }

  function Remaining(db: Database, events: seq<EventRef>): set<ThreadRef> {
    BusyOf(WithoutEvents(db, Removable(events)), Touched(db, events))
  }

  function AfterRemoval(db: Database, events: seq<EventRef>): Database {
    WithoutThreads(WithoutEvents(db, Removable(events)), Emptied(db, events))
  }

  /** Different threads of the set have different hashes. */
  ghost predicate HashesTell(ts: set<ThreadRef>) {
    forall a, b :: a in ts && b in ts && HashThread(a) == HashThread(b) ==> a == b
  }

  /** The order of the request and its repetitions make no difference. */
  lemma OrderAndRepetitionDoNotMatter(db: Database, events: seq<EventRef>, other: seq<EventRef>)
    requires Elements(events) == Elements(other)
    ensures AfterRemoval(db, events) == AfterRemoval(db, other)
    ensures Emptied(db, events) == Emptied(db, other) && Remaining(db, events) == Remaining(db, other)
  {
    assert forall e :: e in events <==> e in Elements(events);
    assert forall e :: e in other <==> e in Elements(other);
    assert Removable(events) == Removable(other);
    assert Touched(db, events) == Touched(db, other);
  }

  /** A thread the request mentions either keeps events that count, unchanged, or is gone with everything in it. */
  lemma NoEmptyThreadIsLeft(db: Database, events: seq<EventRef>, t: ThreadRef)
    requires t in Touched(db, events)
    ensures var after := AfterRemoval(db, events);
            && (t in Remaining(db, events) <==> t !in Emptied(db, events))
            && (t in after.threads <==> t in Remaining(db, events))
            && (t in after.threads ==> Count(after, t) > 0 && Counted(after, t) == Counted(db, t) - Removable(events))
            && (t !in after.threads ==> forall e :: e in after.events ==> ThreadOf(e) != t)
  {
    var after := AfterRemoval(db, events);
    var during := WithoutEvents(db, Removable(events));
    if t in Remaining(db, events) {
      assert Counted(after, t) == Counted(during, t);
      assert Counted(during, t) == Counted(db, t) - Removable(events);
    }
  }

  /**
   * What goes, said without counting: a thread goes exactly when the request mentions it and names every event of it
   * that counts; an event goes exactly when it is named or its thread goes. Everything else stays as it was.
   */
  lemma RemovalChangesExactly(db: Database, events: seq<EventRef>, t: ThreadRef, e: EventRef)
    ensures var after := AfterRemoval(db, events);
            && (t in db.threads && t !in after.threads <==>
                  t in Touched(db, events) && Counted(db, t) <= Removable(events))
            && (e in db.events && e !in after.events <==>
                  e in db.events && (e in Removable(events)
                                     || (ThreadOf(e) in db.threads && ThreadOf(e) !in after.threads)))
            && after.threads <= db.threads
            && (e in after.events ==> e in db.events && after.events[e] == db.events[e])
  {
    EmptiedExactly(db, events, t);
    EmptiedExactly(db, events, ThreadOf(e));
  }

  lemma EmptiedExactly(db: Database, events: seq<EventRef>, t: ThreadRef)
    ensures t in Emptied(db, events) <==> t in Touched(db, events) && Counted(db, t) <= Removable(events)
  {
    var during := WithoutEvents(db, Removable(events));
    assert Counted(during, t) == Counted(db, t) - Removable(events);
    NothingLeft(Counted(db, t), Removable(events));
  }

  lemma NothingLeft<T>(a: set<T>, b: set<T>)
    ensures |a - b| == 0 <==> a <= b
  {
    if a - b == {} {
      forall x | x in a ensures x in b {
        assert x !in a - b;
      }
    }
  }

  // ---------------------------------------------------------------- hashes

  const SEPARATOR := "#-#"

  lemma {:induction false} FirstHashMark(account: string, tail: string, account': string, tail': string)
    requires '#' !in account && '#' !in account' && account + (['#'] + tail) == account' + (['#'] + tail')
    ensures account == account' && tail == tail'
  {
    var s, s' := account + (['#'] + tail), account' + (['#'] + tail');
    assert s[0] == if account == [] then '#' else account[0];
    assert s'[0] == if account' == [] then '#' else account'[0];
    if account != [] && account' != [] {
      assert s[1..] == account[1..] + (['#'] + tail) && s'[1..] == account'[1..] + (['#'] + tail');
      FirstHashMark(account[1..], tail, account'[1..], tail');
      assert account == [account[0]] + account[1..] && account' == [account'[0]] + account'[1..];
    } else {
      assert account == [] && account' == [];
      assert s[1..] == tail && s'[1..] == tail';
    }
  }

  lemma HashLayout(t: ThreadRef)
    ensures |HashThread(t)| >= 4
    ensures HashThread(t)[4..] == t.accountId + (['#'] + ("-#" + t.threadId))
    ensures HashThread(t)[0] == match t.eventType case Text => '0' case Voice => '1' case NullEvent => '2'
  {
  }

  /** Threads of accounts without the separator's mark in their ids have different hashes. */
  lemma HashInjective(a: ThreadRef, b: ThreadRef)
    requires '#' !in a.accountId && '#' !in b.accountId && HashThread(a) == HashThread(b)
    ensures a == b
  {
    HashLayout(a);
    HashLayout(b);
    FirstHashMark(a.accountId, "-#" + a.threadId, b.accountId, "-#" + b.threadId);
    assert ("-#" + a.threadId)[2..] == a.threadId && ("-#" + b.threadId)[2..] == b.threadId;
  }

  /** No account id of a stored thread contains the mark of the separator. */
  ghost predicate PlainAccounts(db: Database) {
    forall t :: t in db.threads ==> '#' !in t.accountId
  }

  lemma PlainAccountsTell(ts: set<ThreadRef>)
    requires forall t :: t in ts ==> '#' !in t.accountId
    ensures HashesTell(ts)
  {
    forall a, b | a in ts && b in ts && HashThread(a) == HashThread(b) ensures a == b {
      HashInjective(a, b);
    }
  }

  /** With the separator inside an account id two threads can share a hash. */
  lemma HashesCollide(account: string, middle: string, thread: string)
    ensures var a := ThreadRef(Text, account, middle + SEPARATOR + thread);
            var b := ThreadRef(Text, account + SEPARATOR + middle, thread);
            HashThread(a) == HashThread(b) && a != b
  {
    var a := ThreadRef(Text, account, middle + SEPARATOR + thread);
    var b := ThreadRef(Text, account + SEPARATOR + middle, thread);
    assert |a.accountId| != |b.accountId|;
  }

  // ---------------------------------------------------------------- the daemon

  /** The notifications sent after a successful removal. */
  datatype Notices = Notices(removed: map<string, ThreadRef>, modified: map<string, ThreadRef>)

  /** Every thread of ts is filed under its hash, or another one of ts with that hash is. */
  ghost predicate Files(m: map<string, ThreadRef>, ts: set<ThreadRef>) {
    && (forall h :: h in m ==> HashThread(m[h]) == h && m[h] in ts)
    && (forall t :: t in ts ==> HashThread(t) in m)
  }

  /** No thread gets lost on the way exactly when the hashes tell them apart. */
  lemma FilesExactly(m: map<string, ThreadRef>, ts: set<ThreadRef>)
    requires Files(m, ts)
    ensures m.Values <= ts
    ensures m.Values == ts <==> HashesTell(ts)
  {
    if HashesTell(ts) {
      forall t | t in ts ensures t in m.Values {
        assert m[HashThread(t)] == t;
      }
    }
    if m.Values == ts {
      forall a, b | a in ts && b in ts && HashThread(a) == HashThread(b) ensures a == b {
        assert a in m.Values && b in m.Values;
        assert m[HashThread(a)] == a && m[HashThread(b)] == b;
      }
    }
  }

  /**
   * The notifications are disjoint and list existing touched threads by their final state, each once; all of them,
   * and nothing empty is left behind, exactly when the hashes tell the emptied and the remaining threads apart.
   */
  lemma RemovalIsCompleteExactly(db: Database, events: seq<EventRef>, notices: Notices)
    requires Files(notices.removed, Emptied(db, events)) && Files(notices.modified, Remaining(db, events))
    ensures notices.removed.Values !! notices.modified.Values
    ensures var after := WithoutThreads(WithoutEvents(db, Removable(events)), notices.removed.Values);
            after == AfterRemoval(db, events) <==> HashesTell(Emptied(db, events))
    ensures notices.removed.Values == Emptied(db, events) <==> HashesTell(Emptied(db, events))
    ensures notices.modified.Values == Remaining(db, events) <==> HashesTell(Remaining(db, events))
  {
    FilesExactly(notices.removed, Emptied(db, events));
    FilesExactly(notices.modified, Remaining(db, events));
    var during, gone := WithoutEvents(db, Removable(events)), notices.removed.Values;
    if t :| t in Emptied(db, events) && t !in gone {
      assert t in WithoutThreads(during, gone).threads && t !in AfterRemoval(db, events).threads;
    }
  }

  /** With accounts whose ids do not contain the separator's mark, removals and notifications are always complete. */
  lemma PlainAccountsLoseNothing(db: Database, events: seq<EventRef>, notices: Notices)
    requires PlainAccounts(db)
    requires Files(notices.removed, Emptied(db, events)) && Files(notices.modified, Remaining(db, events))
    ensures WithoutThreads(WithoutEvents(db, Removable(events)), notices.removed.Values) == AfterRemoval(db, events)
    ensures notices.removed.Values == Emptied(db, events) && notices.modified.Values == Remaining(db, events)
  {
    RemovalIsCompleteExactly(db, events, notices);
    PlainAccountsTell(Emptied(db, events));
    PlainAccountsTell(Remaining(db, events));
  }

  // ---------------------------------------------------------------- the outcome for each thread and each event

  /** A thread that the storage finds: text or voice, with an account, and an id that is not blank. */
  predicate Findable(t: ThreadRef) {
    && (t.eventType.Text? || t.eventType.Voice?) && |t.accountId| > 0
    && exists k :: 0 <= k < |t.threadId| && !IsSpace(t.threadId[k])
  }

  predicate Within(e: EventRef, t: ThreadRef) {
    e.eventType == t.eventType && e.accountId == t.accountId && e.threadId == t.threadId
  }

  /** The request names an event of the thread. */
  predicate Names(events: seq<EventRef>, t: ThreadRef) {
    exists i :: 0 <= i < |events| && Within(events[i], t)
  }

  /** Events of no type are ignored. */
  predicate Requested(events: seq<EventRef>, e: EventRef) {
    (e.eventType.Text? || e.eventType.Voice?) && e in events
  }

  /** The request names every event of the thread that counts. */
  ghost predicate NamesAll(db: Database, events: seq<EventRef>, t: ThreadRef) {
    forall e :: e in db.events && db.events[e] && Within(e, t) ==> e in events
  }

  /**
   * What a removal comes to. A thread that the request does not name, or that cannot be found, stays. One that is
   * named stays and is announced as modified if the request leaves it an event that counts; otherwise it is announced
   * as removed and gone, unless another thread took its hash. An event goes if it is named, or with its thread.
   */
  ghost predicate Outcome(db: Database, events: seq<EventRef>, notices: Notices, after: Database) {
    && (forall t :: t in after.threads ==> t in db.threads)
    && (forall t :: t in db.threads ==> ThreadOutcome(db, events, notices, after, t))
    && (forall h :: h in notices.removed ==> notices.removed[h] in db.threads && notices.removed[h] !in after.threads)
    && (forall h :: h in notices.modified ==> notices.modified[h] in after.threads)
    && (forall e :: e in after.events ==> e in db.events && after.events[e] == db.events[e])
    && (forall e :: e in db.events ==>
          (e in after.events <==> !Requested(events, e)
                                  && forall h :: h in notices.removed ==> !Within(e, notices.removed[h])))
  }

  ghost predicate ThreadOutcome(db: Database, events: seq<EventRef>, notices: Notices, after: Database, t: ThreadRef)
  {
    if !Names(events, t) || !Findable(t) then
      && t in after.threads
      && (forall h :: h in notices.removed ==> notices.removed[h] != t)
      && (forall h :: h in notices.modified ==> notices.modified[h] != t)
    else if NamesAll(db, events, t) then
      && HashThread(t) in notices.removed
      && (t in after.threads <==> notices.removed[HashThread(t)] != t)
    else t in after.threads && HashThread(t) in notices.modified
  }

  lemma TouchedExactly(db: Database, events: seq<EventRef>, t: ThreadRef)
    ensures t in Touched(db, events) <==> t in db.threads && Findable(t) && Names(events, t)
  {
    BlankExactly(t.threadId);
    if i :| 0 <= i < |events| && Within(events[i], t) { assert ThreadOf(events[i]) == t; }
    if e :| e in events && ThreadOf(e) == t {
      var i :| 0 <= i < |events| && events[i] == e;
      assert Within(events[i], t);
    }
  }

  lemma NamesAllExactly(db: Database, events: seq<EventRef>, t: ThreadRef)
    requires Findable(t)
    ensures NamesAll(db, events, t) <==> Counted(db, t) <= Removable(events)
  {
    forall e ensures e in Counted(db, t) <==> e in db.events && db.events[e] && Within(e, t) {
    }
    if NamesAll(db, events, t) {
      forall e | e in Counted(db, t) ensures e in Removable(events) {
      }
    }
    if Counted(db, t) <= Removable(events) {
      forall e | e in db.events && db.events[e] && Within(e, t) ensures e in events {
        assert e in Counted(db, t);
      }
    }
  }

  /** The threads filed and the database left by a removal are this outcome. */
  lemma RemovalOutcome(db: Database, events: seq<EventRef>, notices: Notices)
    requires Files(notices.removed, Emptied(db, events)) && Files(notices.modified, Remaining(db, events))
    ensures Outcome(db, events, notices,
                    WithoutThreads(WithoutEvents(db, Removable(events)), notices.removed.Values))
  {
    var after := WithoutThreads(WithoutEvents(db, Removable(events)), notices.removed.Values);
    forall t | t in db.threads ensures ThreadOutcome(db, events, notices, after, t) {
      OneThread(db, events, notices, t);
    }
    forall e | e in db.events
      ensures e in after.events <==>
                !Requested(events, e) && forall h :: h in notices.removed ==> !Within(e, notices.removed[h])
    {
      OneEvent(notices.removed, e);
    }
    forall h | h in notices.modified ensures notices.modified[h] in after.threads {
      assert notices.modified[h] in Remaining(db, events);
    }
  }

  lemma OneEvent(removed: map<string, ThreadRef>, e: EventRef)
    ensures ThreadOf(e) in removed.Values <==> exists h :: h in removed && Within(e, removed[h])
  {
    if ThreadOf(e) in removed.Values {
      var h :| h in removed && removed[h] == ThreadOf(e);
      assert Within(e, removed[h]);
    }
    if h :| h in removed && Within(e, removed[h]) { assert removed[h] == ThreadOf(e); }
  }

  lemma OneThread(db: Database, events: seq<EventRef>, notices: Notices, t: ThreadRef)
    requires t in db.threads
    requires Files(notices.removed, Emptied(db, events)) && Files(notices.modified, Remaining(db, events))
    ensures ThreadOutcome(db, events, notices,
                          WithoutThreads(WithoutEvents(db, Removable(events)), notices.removed.Values), t)
  {
    TouchedExactly(db, events, t);
    if t in Touched(db, events) {
      NamesAllExactly(db, events, t);
      EmptiedExactly(db, events, t);
      assert t in Emptied(db, events) || t in Remaining(db, events);
    }
  }

  class Daemon {
    const backend: Backend?

    constructor (backend: Backend?)
      ensures this.backend == backend
    {
      this.backend := backend;
    }

    /** The first loop: the events go. */
    method RemoveTheEvents(b: Backend, events: seq<EventRef>) returns (success: bool)
      modifies b
      ensures b.saved == old(b.saved)
      ensures old(b.calls) <= b.calls && (success <==> b.AllSucceeded(old(b.calls)))
      ensures success ==> b.db == WithoutEvents(old(b.db), Removable(events))
    {
      ghost var before := b.db;
      assert WithoutEvents(before, Removable(events[..0])) == before;
      for i := 0 to |events|
        invariant b.saved == old(b.saved)
        invariant old(b.calls) <= b.calls && b.AllSucceeded(old(b.calls))
        invariant b.db == WithoutEvents(before, Removable(events[..i]))
      {
        var event := events[i];
        success := true;
        match event.eventType {
          case Text => success := b.RemoveTextEvent(event);
          case Voice => success := b.RemoveVoiceEvent(event);
          case NullEvent =>
        }
        if !success {
          return false;
        }
        RemovableNext(before, events, i);
      }
      assert events[..|events|] == events;
      success := true;
    }

    /** The second loop: the threads are looked at only now, when the counts are final. */
    method Classify(b: Backend, events: seq<EventRef>) returns (notices: Notices)
      ensures Classified(b.db, events, notices.removed, notices.modified)
    {
      var removedThreads: map<string, ThreadRef>, modifiedThreads: map<string, ThreadRef> := map[], map[];
      for i := 0 to |events|
        invariant Classified(b.db, events[..i], removedThreads, modifiedThreads)
      {
        var thread := ThreadOf(events[i]);
        var found, count := b.GetSingleThread(thread);
        ClassifiedNext(b.db, events, i, removedThreads, modifiedThreads);
        if !found {
          continue;
        }
        var hash := HashThread(thread);
        if count > 0 {
          modifiedThreads := modifiedThreads[hash := thread];
        } else {
          removedThreads := removedThreads[hash := thread];
        }
      }
      assert events[..|events|] == events;
      notices := Notices(removedThreads, modifiedThreads);
    }

    /** The third loop: the threads that are now empty go. */
    method RemoveTheThreads(b: Backend, removedThreads: map<string, ThreadRef>) returns (success: bool)
      modifies b
      ensures b.saved == old(b.saved)
      ensures old(b.calls) <= b.calls && (success <==> b.AllSucceeded(old(b.calls)))
      ensures success ==> b.db == WithoutThreads(old(b.db), removedThreads.Values)
    {
      var pending := removedThreads.Keys;
      ghost var before := b.db;
      ghost var gone: set<ThreadRef> := {};
      assert WithoutThreads(before, {}) == before;
      while pending != {}
        invariant pending <= removedThreads.Keys && b.saved == old(b.saved)
        invariant old(b.calls) <= b.calls && b.AllSucceeded(old(b.calls))
        invariant gone == set h | h in removedThreads && h !in pending :: removedThreads[h]
        invariant b.db == WithoutThreads(before, gone)
        decreases pending
      {
        var h := Least(pending);
        success := b.RemoveThread(removedThreads[h]);
        if !success {
          return false;
        }
        assert WithoutThreads(WithoutThreads(before, gone), {removedThreads[h]})
            == WithoutThreads(before, gone + {removedThreads[h]});
        pending := pending - {h};
        gone := gone + {removedThreads[h]};
      }
      assert gone == removedThreads.Values;
      success := true;
    }

    /**
     * removeEvents. On success the events are gone, the touched threads left without events are gone and each
     * touched thread is announced, by its final state, as far as their hashes differ; on failure the database
     * is as it was. It fails without a backend and where a statement fails.
     */
    method RemoveEvents(events: seq<EventRef>) returns (success: bool, notices: Notices)
      modifies backend
      ensures success <==> backend != null && backend.AllSucceeded(old(backend.calls))
      ensures backend != null && !success ==> backend.db == old(backend.db)
      ensures !success ==> notices == Notices(map[], map[])
      ensures success ==>
                && backend != null
                && Files(notices.removed, Emptied(old(backend.db), events))
                && Files(notices.modified, Remaining(old(backend.db), events))
                && backend.db
                   == WithoutThreads(WithoutEvents(old(backend.db), Removable(events)), notices.removed.Values)
                && (backend.db == AfterRemoval(old(backend.db), events) <==>
                      HashesTell(Emptied(old(backend.db), events)))
                && Outcome(old(backend.db), events, notices, backend.db)
    {
      notices := Notices(map[], map[]);
      if backend == null {
        return false, notices;
      }
      backend.BeginBatchOperation();
      ghost var before := backend.db;
      success := RemoveTheEvents(backend, events);
      if !success {
        backend.RollbackBatchOperation();
        return;
      }
      ghost var during := backend.db;
      SameTouched(before, events);
      var found := Classify(backend, events);
      success := RemoveTheThreads(backend, found.removed);
      if !success {
        backend.RollbackBatchOperation();
        return;
      }
      backend.EndBatchOperation();
      notices := found;
      RemovalIsCompleteExactly(before, events, found);
      RemovalOutcome(before, events, found);
    }
  }

  lemma RemovableNext(db: Database, events: seq<EventRef>, i: nat)
    requires i < |events|
    ensures var more := if events[i].eventType.NullEvent? then {} else {events[i]};
            Removable(events[..i + 1]) == Removable(events[..i]) + more
            && WithoutEvents(WithoutEvents(db, Removable(events[..i])), more)
               == WithoutEvents(db, Removable(events[..i + 1]))
    ensures events[i].eventType.Text? ==> events[i].(eventType := Text) == events[i]
    ensures events[i].eventType.Voice? ==> events[i].(eventType := Voice) == events[i]
  {
    assert events[..i + 1] == events[..i] + [events[i]];
  }

  lemma TouchedNext(db: Database, events: seq<EventRef>, i: nat)
    requires i < |events|
    ensures var t := ThreadOf(events[i]);
            Touched(db, events[..i + 1]) == Touched(db, events[..i]) + if Visible(db, t) then {t} else {}
  {
    assert events[..i + 1] == events[..i] + [events[i]];
    assert events[i] in events[..i + 1];
  }

  lemma FilesNext(m: map<string, ThreadRef>, ts: set<ThreadRef>, t: ThreadRef)
    requires Files(m, ts)
    ensures Files(m[HashThread(t) := t], ts + {t})
  {
  }

  ghost predicate Classified(db: Database, events: seq<EventRef>, removed: map<string, ThreadRef>,
                             modified: map<string, ThreadRef>) {
    Files(removed, EmptyOf(db, Touched(db, events))) && Files(modified, BusyOf(db, Touched(db, events)))
  }

  lemma ByCount(db: Database, ts: set<ThreadRef>, t: ThreadRef)
    ensures BusyOf(db, ts + {t}) == if Count(db, t) > 0 then BusyOf(db, ts) + {t} else BusyOf(db, ts)
    ensures EmptyOf(db, ts + {t}) == if Count(db, t) > 0 then EmptyOf(db, ts) else EmptyOf(db, ts) + {t}
  {
  }

  lemma ClassifiedNext(db: Database, events: seq<EventRef>, i: nat, removed: map<string, ThreadRef>,
                       modified: map<string, ThreadRef>)
    requires i < |events| && Classified(db, events[..i], removed, modified)
    ensures var t := ThreadOf(events[i]);
            if !Visible(db, t) then Classified(db, events[..i + 1], removed, modified)
            else if Count(db, t) > 0 then Classified(db, events[..i + 1], removed, modified[HashThread(t) := t])
            else Classified(db, events[..i + 1], removed[HashThread(t) := t], modified)
  {
    var t, ts := ThreadOf(events[i]), Touched(db, events[..i]);
    TouchedNext(db, events, i);
    if Visible(db, t) {
      ByCount(db, ts, t);
      if Count(db, t) > 0 {
        FilesNext(modified, BusyOf(db, ts), t);
      } else {
        FilesNext(removed, EmptyOf(db, ts), t);
      }
    } else {
      assert ts + {} == ts;
    }
  }

  lemma SameTouched(db: Database, events: seq<EventRef>)
    ensures Touched(WithoutEvents(db, Removable(events)), events) == Touched(db, events)
  {
  }
}
