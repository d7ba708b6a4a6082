/** Threads (src/thread.cpp), their cache key, and which of them are grouped (src/utils.cpp). */
module Threads {
  import opened Strings

  datatype EventType = Text | Voice | NullEvent
  datatype ChatType = NoChat | Contact | Room | Group | List

  /** The properties of a thread that the grouping code looks at. */
  datatype Thread = Thread(
    eventType: EventType, accountId: string, threadId: string, chatType: ChatType,
    participants: seq<string>, timestamp: int, count: int, unreadCount: int)

  /** generateThreadMapKey: the two ids are simply put one after the other. */
  function Key(t: Thread): string {
    t.accountId + t.threadId
  }

  /** Thread::operator==: identity is the type and the two ids. */
  predicate SameThread(a: Thread, b: Thread) {
    a.eventType == b.eventType && a.accountId == b.accountId && a.threadId == b.threadId
  }

  /** A key tells threads of one account and one type apart. */
  lemma SameThreadExactly(a: Thread, b: Thread)
    ensures SameThread(a, b) <==> a.eventType == b.eventType && a.accountId == b.accountId && Key(a) == Key(b)
  {
    if a.accountId == b.accountId && Key(a) == Key(b) { SameKeyPrefix(a, b); }
  }

  const PHONE_PROTOCOLS := {"ofono", "multimedia", "sip"}

  function ProtocolFromAccountId(accountId: string): string {
    var parsedId := Split(accountId, '/');
    if |parsedId| < 3 then "" else parsedId[1]
  }

  predicate ShouldGroupThread(t: Thread) {
    var protocol := ProtocolFromAccountId(t.accountId);
    if protocol == "multimedia" then !t.chatType.Room? else protocol in PHONE_PROTOCOLS
  }

  /** The same thread, grouped in both versions or in none; its chat type may change otherwise. */
  predicate SameKind(a: Thread, b: Thread) {
    SameThread(a, b) && ShouldGroupThread(a) == ShouldGroupThread(b)
  }

  /** What the cache asks of two threads it meets: an equal key means the same thread, of the same kind. */
  predicate Agree(a: Thread, b: Thread) {
    Key(a) == Key(b) ==> SameKind(a, b)
  }

  /** Nothing in the key separates the account from the thread, so different phone threads can share one. */
  lemma KeysCollide(name: string, shift: string, rest: string)
    requires shift != []
    ensures var a := Thread(Text, "ofono/ofono/" + name, shift + rest, Contact, [], 0, 0, 0);
            var b := Thread(Text, "ofono/ofono/" + (name + shift), rest, Contact, [], 0, 0, 0);
            && Key(a) == Key(b) && !SameThread(a, b) && ShouldGroupThread(a) && ShouldGroupThread(b)
  {
    SplitOfono(name);
    SplitOfono(name + shift);
    var p := "ofono/ofono/";
    assert (p + name) + (shift + rest) == (p + (name + shift)) + rest;
    assert |p + name| != |p + (name + shift)|;
  }

  /** Threads of these accounts have different keys unless they have the same two ids. */
  ghost predicate KeysIdentify(accounts: set<string>) {
    forall a: Thread, b: Thread :: a.accountId in accounts && b.accountId in accounts && Key(a) == Key(b) ==>
                     a.accountId == b.accountId && a.threadId == b.threadId
  }

  ghost predicate PrefixFree(accounts: set<string>) {
    forall a, b :: a in accounts && b in accounts ==> !(a < b)
  }

  /** Whatever their thread ids are, keys identify threads exactly when no account id starts with another one. */
  lemma KeysIdentifyExactly(accounts: set<string>)
    ensures KeysIdentify(accounts) <==> PrefixFree(accounts)
  {
    if PrefixFree(accounts) {
      forall a: Thread, b: Thread | a.accountId in accounts && b.accountId in accounts && Key(a) == Key(b)
        ensures a.accountId == b.accountId && a.threadId == b.threadId
      {
        if |a.accountId| <= |b.accountId| { SameKeyPrefix(a, b); } else { SameKeyPrefix(b, a); }
      }
    }
    if a, b :| a in accounts && b in accounts && a < b {
      var t := Thread(Text, a, b[|a|..], NoChat, [], 0, 0, 0);
      var u := Thread(Text, b, "", NoChat, [], 0, 0, 0);
      assert Key(t) == b && Key(u) == b;
      assert !KeysIdentify(accounts);
    }
  }

  /** Of two equal keys the shorter account id starts the longer one. */
  lemma SameKeyPrefix(a: Thread, b: Thread)
    requires Key(a) == Key(b) && |a.accountId| <= |b.accountId|
    ensures a.accountId <= b.accountId
    ensures a.accountId == b.accountId ==> a.threadId == b.threadId
  {
    assert Key(a)[..|a.accountId|] == a.accountId && Key(b)[..|a.accountId|] == b.accountId[..|a.accountId|];
    assert Key(a)[|a.accountId|..] == a.threadId && Key(b)[|b.accountId|..] == b.threadId;
  }

  lemma SameAccountKeys(t: Thread, u: Thread)
    requires t.accountId == u.accountId && t.threadId != u.threadId
    ensures Key(t) != Key(u)
  {
    if Key(t) == Key(u) { SameKeyPrefix(t, u); }
  }

  // ---------------------------------------------------------------- which accounts are grouped

  /** The protocol is the second of at least three parts; whatever comes after the third part belongs to it. */
  lemma ProtocolExactly(parts: seq<string>)
    requires parts != [] && forall i :: 0 <= i < |parts| ==> '/' !in parts[i]
    ensures ProtocolFromAccountId(Join(parts, '/')) == if |parts| < 3 then "" else parts[1]
  {
    SplitOfJoin(parts, '/');
  }

  /** Only threads of the three phone protocols are grouped, and of these all but multimedia rooms. */
  lemma GroupedExactly(t: Thread, parts: seq<string>)
    requires parts != [] && forall i :: 0 <= i < |parts| ==> '/' !in parts[i]
    requires t.accountId == Join(parts, '/')
    ensures ShouldGroupThread(t) <==>
              && |parts| >= 3
              && (parts[1] == "ofono" || parts[1] == "sip" || (parts[1] == "multimedia" && t.chatType != Room))
  {
    ProtocolExactly(parts);
    GroupedProtocols(t);
    assert |"ofono"| != 0 && |"sip"| != 0 && |"multimedia"| != 0;
  }

  lemma GroupedProtocols(t: Thread)
    ensures var p := ProtocolFromAccountId(t.accountId);
            ShouldGroupThread(t) <==> p == "ofono" || p == "sip" || (p == "multimedia" && t.chatType != Room)
  {
    assert |"ofono"| != |"multimedia"| && |"sip"| != |"multimedia"|;
  }

  lemma ThreeParts(first: string, protocol: string, name: string)
    requires '/' !in first && '/' !in protocol
    ensures ProtocolFromAccountId(first + ['/'] + (protocol + ['/'] + name)) == protocol
  {
    SplitWord(first, protocol + ['/'] + name, '/');
    SplitWord(protocol, name, '/');
  }

  /** An account of the ofono protocol is recognised by its second part. */
  lemma SplitOfono(name: string)
    ensures ProtocolFromAccountId("ofono/ofono/" + name) == "ofono"
    ensures "ofono" in PHONE_PROTOCOLS && "ofono" != "multimedia"
  {
    ThreeParts("ofono", "ofono", name);
    assert "ofono/ofono/" + name == "ofono" + ['/'] + ("ofono" + ['/'] + name);
    assert |"ofono"| != |"multimedia"|;
  }

  lemma SplitMultimedia(name: string)
    ensures ProtocolFromAccountId("multimedia/multimedia/" + name) == "multimedia"
  {
    ThreeParts("multimedia", "multimedia", name);
    assert "multimedia/multimedia/" + name == "multimedia" + ['/'] + ("multimedia" + ['/'] + name);
  }
}
