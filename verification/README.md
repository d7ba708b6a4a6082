# History service: grouped conversations, ordered models and filters

The history service stores text and voice events in threads, one per account and remote party, and shows
threads with the same participants as one conversation. This project models the parts of it that keep such
grouped views consistent, and proves what they keep:

- **The conversation cache of the SQLite plugin**: two maps kept in step by hand, from conversation keys to
  lists of threads and from thread keys to conversation keys (`Threads`, `Conversations`, `CacheRepair`,
  `ConversationCaches`, `ConversationRuns`, `ConversationPartition`, `ConversationOrder`).
- **Participant matching** (`Participants`): the greedy matcher that decides which threads group together.
- **The client models**: the field-list comparator and the hand-written binary search (`HistoryModel`), the
  grouped threads (`GroupedThreadsModel`), their agreement with the server's cache over whole runs
  (`ClientMirror`), and the grouped events (`EventGroups`, `EventArrivals`, `GroupedEventsModel`).
- **The filter language**: matching and serialisation (`Filters`), the compiler to SQL text (`FilterSql`,
  `FilterSqlProofs`) and LIKE escaping (`LikeEscaping`).
- **Around the cache**: loading it page by page (`ThreadView`), grouped listings (`GroupedListing`), and the
  removal of events with the threads they leave empty (`HistoryDaemon`).

`Strings` and `Permutations` hold what these share: the order of map keys, splitting, and sequences that lose an
element or are reordered.

Objects whose methods change fields in the original are classes with those fields; loops are loops, proved
against functions and predicates on values, about which the lemmas then speak. The phone number comparison
and normalisation are parameters; nothing is assumed about them unless a lemma says so.

## How the cache proofs are organised

`Conversations.Wf` says what a proper forward map is: no conversation is empty or lists a thread twice, each is
filed under the key of its first latest member, no thread is in two. `Conversations.Indexes` says the reverse
map has exactly the cached threads and points each at the conversation holding it. Every method of
`ConversationCache` on text threads keeps both and computes `Added` or `Removed`; `ConversationRuns.Run` chains
these over a run. What callers owe is `Coherent`: an equal key means the same thread, and a thread does not start or
stop being grouped. `KeysIdentifyExactly` and `UngroupedUpdateExactly` say what these two come to. The partition results
also ask that a thread keeps its chat type and participants, the mirror only that it does not lose all of them.

## Where the program does less than it is meant to

Each of these has its exact condition and an input that shows it.

- Keys are plain concatenations, so different phone threads can share one (`KeysCollide`); over all thread ids they
  identify threads exactly when no account id starts with another one (`KeysIdentifyExactly`).
- Removing a voice thread drops its key from both maps unseen. They stay in step exactly when no cached
  conversation of several threads holds that key, and nothing is lost exactly when no cached thread has it
  (`BlindRemoval`, `VoiceRemovalDropsConversation`). The same condition decides whether a text thread that is not
  grouped may be updated (`UngroupedUpdateExactly`, `RoomUpdateBreaksMaps`).
- The greedy matcher finds every possible pairing of lists of given names exactly when the phone comparison is
  difunctional on these names (`GreedyExactlyWhenDifunctional`); a local number that matches two full numbers breaks it
  (`GreedyMissesPairing`). In exact mode it never uses a name up, and the comparison is symmetric exactly from lists
  without duplicates (`ExactSymmetricExactly`, `ExactAsymmetricWithDuplicates`).
- The conversations do not depend on the order in which threads were added exactly when matching is an
  equivalence on them (`OrderIndependentExactlyForEquivalence`, `LocalNumberMakesOrderMatter`).
- The client gives a thread that comes without participants those it knew, so an addition is mirrored exactly when
  the thread did not lose all its participants (`MirrorSurvivesExactly`, `LostParticipantsReturn`).
- A server answer leaves a thread in two client groups exactly when it joins several of them
  (`MergeKeepsApartExactly`, `JoiningAnswerOverlaps`).
- Removing a grouped event looks at the position of the displayed events only: it finds the event exactly when
  that ties with the one its group shows and comes after the one the group above shows
  (`RemovalFindsExactly`, `SecondEventIsNotFound`). Removals and fetches keep the groups in order exactly under the
  conditions of `RemovedAtInOrder` and `FetchedInOrder` (`RemovalBreaksOrder`, `FetchBreaksOrder`).
- Events that arrive one by one join a group only if they come before those listed: a stream arriving from its last
  event to its first is grouped as fetching groups it (`AddedBackwards`); arriving in its own order, as new events do in
  an ascending model, no event is grouped at all (`AddedForwards`), which agrees with fetching exactly if no event is of
  the same group as the one before it (`ArrivalMattersExactly`).
- An event that is announced again, as every modified one is, stays in one group exactly if the search lands on the
  group that lists it and it is still of that group; then the group keeps its old version, and otherwise the event is
  listed twice (`AddedAgainExactly`, `SecondEventIsListedTwice`).
- Rebuilding a filter from its properties loses invalid members. A leaf keeps its meaning exactly if it is valid or
  matches anything, which a named property with a null but valid value does not (`LeafMatchesAlikeExactly`,
  `NullLeafIsLost`); an intersection and a union keep theirs on a row exactly under the conditions of
  `PrunedIntersectionMatchesExactly` and `PrunedUnionMatchesExactly`. Even a union of valid members can lose one
  (`ValidUnionLosesMember`).
- The text compiled from a filter reads as a condition exactly if no part of the tree is without a property, a value or
  members (`ParsesExactly`, `HollowMemberDoesNotParse`).
- A compiled condition selects only rows that match, and all of them if NULL is never what a leaf asks for
  (`SelectedRowsMatch`); on a leaf that is the exact condition (`NullColumnsDifferExactly`, `NullIsNotSelected`).
  MatchContains searches in SQL and still compares in `match`; the two agree exactly on texts that are the value or do
  not contain it (`ContainsDiffersExactly`, `ContainedIsSelected`).
- Loading the cache ends at a page of blank rows, and is complete exactly when none comes before a row that is not
  blank (`LoadedCompletely`, `BlankPageHidesThread`).
- `removeEvents` files the touched threads under a hash; it announces and removes all of them exactly when the
  hashes differ (`RemovalIsCompleteExactly`). A separator inside an account id can prevent that (`HashesCollide`);
  account ids without the mark '#' cannot (`PlainAccountsLoseNothing`).

## Model

| member | source | states |
|---|---|---|
| Strings.SplitOfJoin | src/utils.cpp:67-67 | splitting joined parts that do not contain the separator gives the parts back |
| Strings.StringLeExactly | plugins/sqlite/sqlitehistoryplugin.cpp:121-126 | the order in which keys are visited: one key starts the other, or the first character that differs decides |
| Threads.KeysCollide | plugins/sqlite/sqlitehistoryplugin.cpp:42-50 | for every account name and every non-empty shift there are two different groupable phone threads with one key |
| Threads.KeysIdentifyExactly | plugins/sqlite/sqlitehistoryplugin.cpp:42-50 | for every set of accounts, keys identify threads whatever their thread ids are if and only if no account id is a proper prefix of another |
| Threads.SplitOfono | src/utils.cpp:47-72 | an account id whose second part is "ofono" is a phone account, whatever follows |
| Threads.ProtocolExactly | src/utils.cpp:65-72 | the protocol of an account id is the second of its parts when it has three or more, and empty otherwise, for every list of parts |
| Threads.GroupedExactly | src/utils.cpp:39-63 | a thread is grouped if and only if its account is of "ofono" or "sip", or of "multimedia" and it is no room |
| Threads.SameThreadExactly | src/thread.cpp:173-187 | within one account and one type the cache key identifies a thread |
| Participants.CompareNormalizedParticipants | src/utils.cpp:111-145 | the loops that use up matches of the second list compute the recursive greedy match in phone mode, and membership in exact mode; lists of different sizes never match |
| Participants.NormalizeAll | src/utils.cpp:96-103 | the list of normalised names, position by position |
| Participants.CompareParticipants | src/utils.cpp:88-109 | phone mode compares normalised names, exact mode the names as they are |
| Participants.RawNamesPairedExactly | src/utils.cpp:88-138 | two lists of names match in phone mode if and only if their positions can be paired off one to one so that the normalised names of every pair match, when the comparison is difunctional on the normalised names |
| Participants.RawNamesExact | src/utils.cpp:88-142 | in exact mode names are not normalised: from a list without duplicates two lists match if and only if they hold the same names and neither repeats one |
| Participants.GreedyIsSound | src/utils.cpp:111-145 | a true answer in phone mode comes with a one-to-one pairing of the lists in which every pair matches |
| Participants.GreedyIsComplete | src/utils.cpp:119-138 | if the comparison is difunctional on the names of the lists, a pairing makes the greedy matcher succeed: taking the first match never blocks a later name |
| Participants.GreedyExactlyWhenDifunctional | src/utils.cpp:111-145 | for every finite set of names: "true exactly when a pairing exists, for all lists of these names" holds if and only if the comparison is difunctional on them |
| Participants.GreedyMissesPairing | src/utils.cpp:119-138 | under a reflexive and symmetric comparison in which a local number matches two full numbers that do not match each other, two lists that can be paired do not match |
| Participants.EquivalenceIsDifunctional | src/utils.cpp:111-145 | every equivalence on the names is such a comparison |
| Participants.CompareIsSameCounts | src/utils.cpp:111-145 | under an equivalence on the names the answer is true exactly when every class has as many names in one list as in the other |
| Participants.CompareIsEquivalenceExactly | src/utils.cpp:111-145 | comparing lists of given names is reflexive, symmetric and transitive if and only if comparing these names is |
| Participants.ExactIsSameSet | src/utils.cpp:139-142 | for a first list without duplicates exact mode is true exactly when both lists hold the same names and the second has no duplicates either |
| Participants.ExactSymmetricExactly | src/utils.cpp:111-145 | exact mode is symmetric from a list, whatever it is compared with, if and only if the list has no duplicates |
| Participants.ExactAsymmetricWithDuplicates | src/utils.cpp:139-142 | two lists on which it is not symmetric |
| Conversations.LatestIsFirst | plugins/sqlite/sqlitehistoryplugin.cpp:160-172 | the displayed member is the first one with the greatest timestamp: all before it are strictly older |
| Conversations.LatestWithout | plugins/sqlite/sqlitehistoryplugin.cpp:210-231 | taking out a member that is not displayed leaves the displayed one displayed, which is why the old key is landed on again |
| Conversations.IndexUnique | plugins/sqlite/sqlitehistoryplugin.cpp:79-234 | the conversations determine the reverse map completely |
| Conversations.AddedOk | plugins/sqlite/sqlitehistoryplugin.cpp:79-150 | an addition keeps every conversation non-empty, duplicate-free, disjoint and under its first latest member, and caches exactly what was cached plus the thread |
| Conversations.RemovedOk | plugins/sqlite/sqlitehistoryplugin.cpp:182-234 | a removal keeps the same and uncaches exactly the thread |
| Conversations.UngroupedMembers | plugins/sqlite/sqlitehistoryplugin.cpp:100-104 | a thread that is not grouped is alone in its conversation, under its own key |
| Conversations.AddedGoesLast | plugins/sqlite/sqlitehistoryplugin.cpp:106-148 | the thread added is the last of its conversation, and the others keep their order |
| Conversations.AddedKeepsOrder | plugins/sqlite/sqlitehistoryplugin.cpp:106-148 | what an addition leaves in front of it is in the order it had |
| Conversations.WithoutKeepsOrder | plugins/sqlite/sqlitehistoryplugin.cpp:113-113 | what a removal leaves keeps its order |
| ConversationCaches.ConversationCache.FindDisplayed | plugins/sqlite/sqlitehistoryplugin.cpp:163-170 | the loop finds the first latest thread |
| ConversationCaches.ConversationCache.ForgetKeys | plugins/sqlite/sqlitehistoryplugin.cpp:202-204 | exactly the listed threads leave the reverse map |
| ConversationCaches.ConversationCache.PointKeys | plugins/sqlite/sqlitehistoryplugin.cpp:176-179 | exactly the listed threads point at the given conversation afterwards, all others as before |
| ConversationCaches.ConversationCache.UpdateDisplayedThread | plugins/sqlite/sqlitehistoryplugin.cpp:160-180 | the conversation is filed under its displayed thread and nowhere else, and its threads point there |
| ConversationCaches.ConversationCache.BelongsWith | plugins/sqlite/sqlitehistoryplugin.cpp:126-141 | true exactly when some member is groupable, of the same chat type and with matching participants |
| ConversationCaches.ConversationCache.FindConversation | plugins/sqlite/sqlitehistoryplugin.cpp:121-144 | finds a matching conversation exactly when there is one, and then the one with the least key |
| ConversationCaches.ConversationCache.UpdateMember | plugins/sqlite/sqlitehistoryplugin.cpp:106-119 | a cached thread moves to the end of its own conversation, both maps repaired |
| ConversationCaches.ConversationCache.JoinConversation | plugins/sqlite/sqlitehistoryplugin.cpp:131-138 | a new thread joins the conversation found, both maps repaired |
| ConversationCaches.ConversationCache.SetAlone | plugins/sqlite/sqlitehistoryplugin.cpp:145-148 | a thread that matches nothing, or is not grouped, gets a conversation of its own |
| ConversationCaches.ConversationCache.AddThread | plugins/sqlite/sqlitehistoryplugin.cpp:95-148 | one round of the loop keeps both maps in step and computes the addition; threads that are not text change nothing |
| ConversationCaches.ConversationCache.AddThreadsToCache | plugins/sqlite/sqlitehistoryplugin.cpp:79-150 | the whole loop keeps both maps in step and adds the threads in the order of the list |
| ConversationCaches.ConversationCache.FindHolder | plugins/sqlite/sqlitehistoryplugin.cpp:212-217 | finds a conversation listing the thread, or says that none does |
| ConversationCaches.ConversationCache.RemoveDisplayed | plugins/sqlite/sqlitehistoryplugin.cpp:193-209 | removing a conversation's displayed thread files the rest under its first latest member, or drops an empty conversation, both maps in step |
| ConversationCaches.ConversationCache.RemoveMember | plugins/sqlite/sqlitehistoryplugin.cpp:210-233 | removing any other thread, although the old key is never deleted explicitly, leaves both maps in step |
| ConversationCaches.ConversationCache.RemoveThreadFromCache | plugins/sqlite/sqlitehistoryplugin.cpp:182-234 | for text threads both maps stay in step and the removal is computed; for others the key is dropped from both maps and nothing else changes |
| ConversationCaches.ConversationCache.FindByKey | plugins/sqlite/sqlitehistoryplugin.cpp:563-569 | the loop finds the listed thread with the key |
| ConversationCaches.ConversationCache.GetSingleThread | plugins/sqlite/sqlitehistoryplugin.cpp:545-574 | grouped lookup answers with the thread asked about and its whole conversation exactly when the ids are not empty and the thread is cached |
| CacheRepair.BlindRemoval | plugins/sqlite/sqlitehistoryplugin.cpp:187-191 | dropping a key from both maps keeps them in step exactly when no cached conversation of several threads holds it, and changes nothing exactly when no cached thread has it |
| CacheRepair.UngroupedUpdateExactly | plugins/sqlite/sqlitehistoryplugin.cpp:100-104 | giving a text thread a conversation of its own keeps the maps in step exactly when no cached conversation of several threads holds its key |
| ConversationOrder.VoiceRemovalDropsConversation | plugins/sqlite/sqlitehistoryplugin.cpp:182-191 | for every phone account and two thread ids: removing the voice thread with the ids of the displayed text thread drops the whole conversation and leaves the other thread's key behind |
| ConversationOrder.RoomUpdateBreaksMaps | plugins/sqlite/sqlitehistoryplugin.cpp:98-104 | for every multimedia account and two thread ids: a thread of a conversation of two that comes back as a room is listed in two conversations |
| CacheRepair.UngroupedRemoved | plugins/sqlite/sqlitehistoryplugin.cpp:187-191 | for a text thread that is not grouped the early return is right |
| CacheRepair.NotDisplayed | plugins/sqlite/sqlitehistoryplugin.cpp:217-229 | a thread that is no conversation key is never alone in its conversation, and after its removal the rest still shows the same thread: the size-one branch is never taken on a proper cache |
| CacheRepair.MemberRepaired | plugins/sqlite/sqlitehistoryplugin.cpp:218-228 | the reverse map repaired by the non-displayed path is the index of the new conversations |
| ConversationRuns.AddedContent | plugins/sqlite/sqlitehistoryplugin.cpp:79-150 | the cache after an addition holds the thread in its new version and every other thread unchanged |
| ConversationRuns.RemovedContent | plugins/sqlite/sqlitehistoryplugin.cpp:182-234 | the cache after a removal holds every other thread unchanged |
| ConversationRuns.RunIsProper | plugins/sqlite/sqlitehistoryplugin.cpp:79-234 | after every run of additions, updates and removals of text threads the cache is proper and holds exactly the stored threads in their latest versions |
| ConversationRuns.RunIsUniform | plugins/sqlite/sqlitehistoryplugin.cpp:106-148 | if no thread changes its chat type, every conversation is of one chat type after every run |
| ConversationRuns.RemovalEffect | plugins/sqlite/sqlitehistoryplugin.cpp:193-233 | a member that is not displayed leaves its conversation under the same key; the displayed one re-keys the rest to its first latest thread, which is a free key |
| ConversationRuns.RemovalLeavesOthers | plugins/sqlite/sqlitehistoryplugin.cpp:193-233 | all other conversations stay as they were |
| ConversationRuns.RemovalLeavesOtherKeys | plugins/sqlite/sqlitehistoryplugin.cpp:193-233 | what the reverse map says about threads of other conversations stays as it was |
| ConversationPartition.TogetherAfterAdd | plugins/sqlite/sqlitehistoryplugin.cpp:106-148 | an addition puts the thread together with its new conversation and changes nobody else's company |
| ConversationPartition.NewThreadPartition | plugins/sqlite/sqlitehistoryplugin.cpp:120-148 | a new thread lands with exactly the threads that match it, when matching is an equivalence |
| ConversationPartition.JoinsOnlyWhereItBelongs | plugins/sqlite/sqlitehistoryplugin.cpp:121-144 | whatever the phone comparison is, a new thread joins a conversation only if a groupable member of its chat type has participants that can be paired off, all of them, with those of the thread |
| ConversationPartition.JoinsTheFirstWhereItBelongs | plugins/sqlite/sqlitehistoryplugin.cpp:121-144 | when the comparison is difunctional on the names and there is such a member somewhere, it joins a conversation with one, and of all these the one with the least key |
| ConversationPartition.RunIsPartition | plugins/sqlite/sqlitehistoryplugin.cpp:79-234 | after every run two cached threads share a conversation if and only if they match, when matching is an equivalence and chat types and participants are fixed |
| ConversationPartition.RunGroupsByParticipants | plugins/sqlite/sqlitehistoryplugin.cpp:79-234 | the same without the notion of matching: when the phone comparison is an equivalence on the names, two cached threads share a conversation after every run if and only if both are groupable, of one chat type, and have for every name as many participants that match it |
| ConversationPartition.SameStoreSameCompany | plugins/sqlite/sqlitehistoryplugin.cpp:79-234 | two runs that leave the same threads stored leave the same threads together, whatever their order of additions, updates and removals |
| ConversationPartition.SameStoreSameKeys | plugins/sqlite/sqlitehistoryplugin.cpp:79-234 | with different timestamps they also leave the same conversations under the same keys |
| ConversationPartition.EquivalentPhonesGiveEquivalentThreads | plugins/sqlite/sqlitehistoryplugin.cpp:127-130 | a phone comparison that is an equivalence on the participants of the threads makes matching one |
| ConversationOrder.AllAddedContent | plugins/sqlite/sqlitehistoryplugin.cpp:79-150 | loading a list of new threads keeps the cache proper and caches exactly those threads |
| ConversationOrder.GroupingIsMatching | plugins/sqlite/sqlitehistoryplugin.cpp:100-148 | after loading, two threads are together if and only if they are the same or match |
| ConversationOrder.OrderIndependentNeedsSymmetry | plugins/sqlite/sqlitehistoryplugin.cpp:120-148 | if no order of loading makes a difference, matching is symmetric |
| ConversationOrder.OrderIndependentNeedsTransitivity | plugins/sqlite/sqlitehistoryplugin.cpp:120-148 | if no order of loading makes a difference, matching is transitive |
| ConversationOrder.OrderIndependentExactlyForEquivalence | plugins/sqlite/sqlitehistoryplugin.cpp:100-148 | every order of loading gives the same conversations if and only if matching is an equivalence on the threads |
| ConversationOrder.LocalNumberMakesOrderMatter | plugins/sqlite/sqlitehistoryplugin.cpp:120-148 | for every phone account: three threads, one with a local number that matches the other two, are grouped differently in different orders of loading |
| ConversationOrder.SameKeysInAnyOrder | plugins/sqlite/sqlitehistoryplugin.cpp:100-180 | with different timestamps every order also gives the same keys |
| HistoryModel.LessThan | Ubuntu/History/historymodel.cpp:459-473 | the loop that consumes the sort fields computes the lexicographic order of the trimmed fields |
| HistoryModel.FirstFieldDecides | Ubuntu/History/historymodel.cpp:459-508 | for sort fields written with commas: the first field, from the left and without the blanks around it, on which two items differ decides, in both directions; later fields make no difference |
| HistoryModel.TrimmedExactly | Ubuntu/History/historymodel.cpp:464-464 | a field name is used without the blanks at its ends, and with all others |
| HistoryModel.LexicographicTransitive | Ubuntu/History/historymodel.cpp:459-473 | it is transitive for every field list |
| HistoryModel.TieMeansEqualFields | Ubuntu/History/historymodel.cpp:459-473 | two items tie if and only if they agree on every sort field |
| HistoryModel.BeforeIsStrictWeakOrder | Ubuntu/History/historymodel.cpp:459-508 | the comparator is a strict weak order for every field list and both directions, given a strict total order of the values |
| HistoryModel.SingleFieldOrder | Ubuntu/History/historymodel.cpp:459-473 | with one plain sort field the order is that of its values, a missing one counting as invalid |
| HistoryModel.PositionForItem | Ubuntu/History/historymodel.cpp:475-503 | on every list it terminates within floor(log2 n) + 2 rounds and stays in bounds; on a sorted list it answers how many items come strictly before the new one |
| HistoryModel.FloorLog2Exactly | Ubuntu/History/historymodel.cpp:475-503 | the bound on its rounds is the greatest power of two that is not above the length |
| HistoryModel.PositionUnique | Ubuntu/History/historymodel.cpp:475-503 | there is only one such position |
| HistoryModel.InsertSorted | Ubuntu/History/historymodel.cpp:475-503 | inserting at that position keeps the list sorted |
| GroupedThreadsModel.FirstIsFirst | Ubuntu/History/historygroupedthreadsmodel.cpp:175-183 | no member goes before the one that is displayed |
| GroupedThreadsModel.FirstOfTies | Ubuntu/History/historygroupedthreadsmodel.cpp:175-183 | of members that tie the earliest in the list is displayed: it goes strictly before every earlier one |
| GroupedThreadsModel.MoveIsReinsert | Ubuntu/History/historygroupedthreadsmodel.cpp:185-199 | searching while the list still holds the old thread, skipping two positions and moving with the minus-one correction is the same as taking the group out and inserting it at its lower bound |
| GroupedThreadsModel.GroupedThreads.FindDisplayed | Ubuntu/History/historygroupedthreadsmodel.cpp:175-183 | the loop finds the first of the members that go first |
| GroupedThreadsModel.GroupedThreads.UpdateDisplayedThread | Ubuntu/History/historygroupedthreadsmodel.cpp:167-200 | on any list the group shows its first member and no other group changes; if the groups are in order and show different threads, it stands at its lower bound among the others, which keep their order |
| GroupedThreadsModel.GroupedThreads.ExistingPositionForEntry | Ubuntu/History/historygroupedthreadsmodel.cpp:122-144 | the first group that lists one of the entry's threads, or none |
| GroupedThreadsModel.GroupedThreads.RestoreParticipants | Ubuntu/History/historygroupedthreadsmodel.cpp:202-215 | a member that came without participants gets those of the old member with its identity, every other one stays |
| GroupedThreadsModel.GroupedThreads.InsertGroup | Ubuntu/History/historygroupedthreadsmodel.cpp:305-313 | a new group is added to any list; to a list in order it goes at its lower bound |
| GroupedThreadsModel.GroupedThreads.ProcessThreadGrouping | Ubuntu/History/historygroupedthreadsmodel.cpp:293-321 | on any list the server's conversation replaces the first group sharing a thread with it or becomes a new group, and an unknown thread is removed; a list in order that shows different threads stays sorted, and disjoint groups stay disjoint exactly when the conversation comes from at most one of them |
| GroupedThreadsModel.GroupedThreads.RemoveThreadFromGroup | Ubuntu/History/historygroupedthreadsmodel.cpp:323-341 | on any list the thread leaves the first group that lists it; in a list in order an empty group goes and any other is placed anew; of disjoint groups none lists the thread afterwards |
| GroupedThreadsModel.GroupedThreads.RemoveGroup | Ubuntu/History/historygroupedthreadsmodel.cpp:157-165 | the first group showing the same thread goes, which is the emptied one when the groups show different threads |
| GroupedThreadsModel.MergeKeepsApartExactly | Ubuntu/History/historygroupedthreadsmodel.cpp:302-320 | no thread is in two groups after a merge if and only if the answer shares threads with at most one group |
| GroupedThreadsModel.NewGroupShowsAsked | Ubuntu/History/historygroupedthreadsmodel.cpp:302-313 | a conversation that shares no thread with any group comes in as one new group that shows the thread asked for, and no other group changes |
| GroupedThreadsModel.JoiningAnswerOverlaps | Ubuntu/History/historygroupedthreadsmodel.cpp:302-320 | an answer with the threads of two groups leaves one of them in both |
| GroupedThreadsModel.RemovalKeepsApart | Ubuntu/History/historygroupedthreadsmodel.cpp:327-340 | after a removal groups are disjoint, show one of their members, and do not list the thread |
| ClientMirror.NewestFirstIsModelOrder | Ubuntu/History/historymodel.cpp:459-508 | the order used for the mirror is the model's own for the sort field "lastEventTimestamp", descending |
| ClientMirror.FirstIsLatest | Ubuntu/History/historygroupedthreadsmodel.cpp:175-183 | the client picks the same displayed thread as the server's cache |
| ClientMirror.MirrorAfterAdd | Ubuntu/History/historygroupedthreadsmodel.cpp:293-321 | after an addition and the client's query both hold the same conversations with the same members and displayed threads |
| ClientMirror.MirrorSurvivesExactly | Ubuntu/History/historygroupedthreadsmodel.cpp:202-215 | an addition is mirrored if and only if the new version of the thread did not lose all its participants |
| ClientMirror.LostParticipantsReturn | Ubuntu/History/historygroupedthreadsmodel.cpp:202-215 | a thread announced again without its participants is shown with them by the client, so the two sides differ |
| ClientMirror.MirrorAfterRemove | Ubuntu/History/historygroupedthreadsmodel.cpp:323-341 | the same after a removal |
| ClientMirror.Deliver | Ubuntu/History/historygroupedthreadsmodel.cpp:293-341 | one server change delivered to the client keeps cache and groups the same |
| ClientMirror.RunBoth | Ubuntu/History/historygroupedthreadsmodel.cpp:293-341 | after every step of every run in which no thread loses all its participants the client's groups are exactly the server's conversations |
| EventGroups.WithEventOk | Ubuntu/History/historygroupedeventsmodel.cpp:224-252 | adding to a group keeps it non-empty, duplicate-free and sorted, showing its first event; it adds exactly the event, or changes nothing if the group lists it |
| EventGroups.WithoutEventElements | Ubuntu/History/historygroupedeventsmodel.cpp:254-258 | a removal takes out exactly the event |
| EventGroups.WithoutEventOk | Ubuntu/History/historygroupedeventsmodel.cpp:254-276 | the remaining events are still distinct and sorted |
| EventGroups.AddedAtOk | Ubuntu/History/historygroupedeventsmodel.cpp:142-169 | wherever the search lands, every group stays proper |
| EventGroups.AddedAtContent | Ubuntu/History/historygroupedeventsmodel.cpp:142-169 | an addition loses no event and brings in no other |
| EventGroups.AddedAtExactly | Ubuntu/History/historygroupedeventsmodel.cpp:142-169 | an event of the group that the search lands on joins that group unless it is listed there, and all other groups stay; any other event gets exactly one new group of its own, put where the search landed |
| EventGroups.AddedAgainExactly | Ubuntu/History/historygroupedeventsmodel.cpp:142-177 | an event that one group lists and that is announced again, as modified ones are, stays in one group if and only if the search lands on that group and it is still of it; then nothing changes |
| EventGroups.SecondEventIsListedTwice | Ubuntu/History/historygroupedeventsmodel.cpp:142-177 | announcing the second event of a group of two again lists it a second time, in a group of its own |
| EventGroups.AddedAtInOrder | Ubuntu/History/historygroupedeventsmodel.cpp:142-169 | an addition to groups in order leaves them in order |
| EventGroups.RemovedAtOk | Ubuntu/History/historygroupedeventsmodel.cpp:179-192 | a removal keeps every group proper |
| EventGroups.RemovedAtContent | Ubuntu/History/historygroupedeventsmodel.cpp:179-192 | a removal takes the event out of the group it looks at and changes no other list |
| EventGroups.RemovedAtExactly | Ubuntu/History/historygroupedeventsmodel.cpp:179-279 | the first listing of the event leaves the group that the search lands on, the rest keep their order and the first of them is shown; an emptied group goes and all other groups stay |
| EventGroups.RemovedAtInOrder | Ubuntu/History/historygroupedeventsmodel.cpp:254-276 | it keeps the groups in order if and only if the group's next event does not belong after the next group |
| EventGroups.RemovalFindsExactly | Ubuntu/History/historygroupedeventsmodel.cpp:179-192 | on groups in order a removal takes effect if and only if the event ties with the one its group shows and comes after the one the group above shows |
| EventGroups.SecondEventIsNotFound | Ubuntu/History/historygroupedeventsmodel.cpp:179-192 | in every strict weak order, removing the second event of a group of two changes nothing |
| EventGroups.RemovalBreaksOrder | Ubuntu/History/historygroupedeventsmodel.cpp:254-276 | in every strict weak order, removing the displayed event of a group that reaches past the next one leaves the groups out of order |
| EventGroups.FetchedInOrder | Ubuntu/History/historygroupedeventsmodel.cpp:94-117 | a fetched event keeps the groups in order when it starts a group, and when it extends one if and only if it is not before the group above |
| EventGroups.FetchedExactly | Ubuntu/History/historygroupedeventsmodel.cpp:84-118 | a fetched event joins the lowest group it is of, if every group below comes after it or ties, unless it is listed there; otherwise it gets one new group below the first one from the bottom that it goes after; all other groups stay |
| EventGroups.ScanStopsSomewhere | Ubuntu/History/historygroupedeventsmodel.cpp:89-104 | on every list of groups the scan ends in one of these two ways |
| EventGroups.FetchBreaksOrder | Ubuntu/History/historygroupedeventsmodel.cpp:94-117 | in every strict weak order, fetching an event of the last group that belongs before the group above leaves the groups out of order |
| EventGroups.RunsAreRuns | Ubuntu/History/historygroupedeventsmodel.cpp:76-119 | the runs of a stream give it back, each is of one group, neighbours differ |
| EventGroups.RunsUnique | Ubuntu/History/historygroupedeventsmodel.cpp:76-119 | there is only one way to cut a stream so |
| EventGroups.RunsAreMaximal | Ubuntu/History/historygroupedeventsmodel.cpp:76-119 | when being of the same group is an equivalence, every two events of a run are of the same group and no two of neighbouring runs are |
| EventGroups.FetchedRuns | Ubuntu/History/historygroupedeventsmodel.cpp:76-119 | fetching an ordered stream from nothing produces exactly its runs |
| EventGroups.PagesDoNotMatter | Ubuntu/History/historygroupedeventsmodel.cpp:76-119 | it makes no difference where pages are cut, from any state |
| EventArrivals.AddedBackwards | Ubuntu/History/historygroupedeventsmodel.cpp:142-169 | an ordered stream whose events arrive one by one from the last to the first ends up in the same groups that fetching the stream makes: its runs, when being of the same group is an equivalence |
| EventArrivals.AddedForwards | Ubuntu/History/historygroupedeventsmodel.cpp:148-168 | arriving from the first to the last, no event ever joins a group |
| EventArrivals.ArrivalMattersExactly | Ubuntu/History/historygroupedeventsmodel.cpp:142-169 | so arriving in that order and fetching agree if and only if no event of the stream is of the same group as the one before it |
| EventGroups.AreOfSameGroup | Ubuntu/History/historygroupedeventsmodel.cpp:194-222 | the loop answers whether the events agree on every grouping property, participants by the first account's mode |
| EventGroups.SameGroupExactly | Ubuntu/History/historygroupedeventsmodel.cpp:194-222 | for every account id: two events are of the same group if and only if they have the grouping properties with the same values and, if participants are among them, on the three phone protocols their normalised numbers can be paired off and on any other the names are the same ones |
| EventGroups.SameGroupIsEquivalence | Ubuntu/History/historygroupedeventsmodel.cpp:194-222 | this is an equivalence on events that have the properties and compare participants in one way, which is an equivalence on their names |
| GroupedEventsModel.GroupedEvents.AddEventToGroup | Ubuntu/History/historygroupedeventsmodel.cpp:224-252 | the loop inserts the event before the first one it goes before, unless it is listed, and shows the first event |
| GroupedEventsModel.JoinedInPlace | Ubuntu/History/historygroupedeventsmodel.cpp:229-244 | an event that joins goes in front of the first one it goes before, behind those it ties with, and the others keep their places |
| GroupedEventsModel.GroupedEvents.FindDisplayed | Ubuntu/History/historygroupedeventsmodel.cpp:267-276 | on a sorted group the search for the event to show ends at the first |
| GroupedEventsModel.GroupedEvents.RemoveEventFromGroup | Ubuntu/History/historygroupedeventsmodel.cpp:254-279 | the event leaves its group, an emptied group goes, any other shows its first event |
| GroupedEventsModel.GroupedEvents.OnEventAdded | Ubuntu/History/historygroupedeventsmodel.cpp:148-168 | one addition keeps every group proper and the list in order, puts the event where the search says and loses nothing |
| GroupedEventsModel.GroupedEvents.OnEventsAdded | Ubuntu/History/historygroupedeventsmodel.cpp:142-169 | the events are added one after the other, each where the search finds its position; all are listed afterwards, nothing is lost, groups stay proper and in order |
| GroupedEventsModel.GroupedEvents.OnEventRemoved | Ubuntu/History/historygroupedeventsmodel.cpp:181-191 | one removal keeps every group proper and loses at most the event |
| GroupedEventsModel.GroupedEvents.OnEventsRemoved | Ubuntu/History/historygroupedeventsmodel.cpp:179-192 | the events are removed one after the other, each from the group at which the search lands; groups stay proper, nothing comes in, and at most the events listed are gone |
| GroupedEventsModel.GroupedEvents.FetchEvent | Ubuntu/History/historygroupedeventsmodel.cpp:89-118 | the scan from the bottom finds the group of the event or the place for a new one |
| GroupedEventsModel.GroupedEvents.FetchMore | Ubuntu/History/historygroupedeventsmodel.cpp:76-119 | a page is taken event by event from any state: every event of it is listed afterwards, none is lost, and every group stays proper |
| Filters.MatchFilter | src/filter.cpp:88-101 | the searches over members compute the meaning of a filter tree on a row |
| Filters.MatchesWithoutItsProperties | src/filter.cpp:88-93 | a filter of any shape matches every row that has none of the properties it names |
| Filters.OnlyItsPropertiesMatter | src/filter.cpp:88-101 | rows that agree on the properties a filter names, present or missing, are matched alike |
| Filters.LeafMatchesExactly | src/filter.cpp:88-101 | a leaf whose property the row has compares the values, null and empty texts being alike, and the bit of "not equals" turns the answer round, whatever the other bits are |
| Filters.PropertiesOf | src/filter.cpp:103-114 | the property map of a filter; invalid filters give the empty map |
| Filters.PropertiesOfAll | src/unionfilter.cpp:70-73 | the loop collects the members' maps in order |
| Filters.FilterFrom | src/filter.cpp:221-240 | the filter read from a property map by its type |
| Filters.ValidFiltersFrom | src/unionfilter.cpp:168-173 | the loop keeps exactly the valid members, in order |
| Filters.RebuiltIsPruned | src/filter.cpp:221-240 | serialising and rebuilding replaces invalid filters by the default one and drops invalid members, at every depth |
| Filters.OtherMaps | src/filter.cpp:221-240 | maps that no filter gives: an unknown type reads as the default filter, no type as a leaf, a compound without members as an empty one |
| Filters.RoundTripExactly | src/filter.cpp:221-240 | serialising and rebuilding is the identity if and only if the tree is well formed at every depth, or is the default filter |
| Filters.PrunedIntersectionMatchesExactly | src/intersectionfilter.cpp:163-168 | if the members left match a row as they did, an intersection does if and only if every lost member matches it or one that is left does not |
| Filters.PrunedUnionMatchesExactly | src/unionfilter.cpp:168-173 | if the members left match a row as they did, a union does if and only if one of them matches it, or none is left and it matched before, or some are left and no lost member matches |
| Filters.RebuiltMatchesAlike | src/unionfilter.cpp:140-176 | a rebuilt filter matches a row as the original if at every part of the tree what is lost does not matter on that row |
| Filters.SafeOnEveryRow | src/unionfilter.cpp:140-176 | on every row that is so for trees whose leaves are valid or match anything and whose unions lose none or all of their members |
| Filters.LeafMatchesAlikeExactly | src/filter.cpp:88-114 | a rebuilt leaf matches every row as the original if and only if it is valid, or has no property, or its value is not valid at all |
| Filters.NullLeafIsLost | src/filter.cpp:88-114 | a valid intersection, or union, of one leaf with a null text comes back matching rows it did not match |
| Filters.ValidUnionLosesMember | src/unionfilter.cpp:57-61 | a union of valid members can still lose one and match less |
| FilterSql.CompileFilter | plugins/sqlite/sqlitehistoryplugin.cpp:1514-1572 | the recursive compiler produces the text and the bindings of the specification, threading the bindings through |
| FilterSql.CompileMembers | plugins/sqlite/sqlitehistoryplugin.cpp:1539-1548 | the loop over inner filters, with the linking word between members only |
| FilterSqlProofs.BindNamesDiffer | plugins/sqlite/sqlitehistoryplugin.cpp:1555-1555 | bind names of different numbers are different |
| FilterSqlProofs.BindsLeaves | plugins/sqlite/sqlitehistoryplugin.cpp:1514-1572 | at any depth the bindings are numbered on from those before, one for each leaf that compares, from left to right, none overwritten |
| FilterSqlProofs.TextOfContains | plugins/sqlite/sqlitehistoryplugin.cpp:1557-1561 | the very text for a leaf with MatchContains, whatever its other flags are: "not equals" beside it is ignored, and the value is in the text, escaped, and not bound |
| FilterSqlProofs.TextOfPair | plugins/sqlite/sqlitehistoryplugin.cpp:1529-1568 | the very text and bindings for two leaves of a table, one of them "not equals": the placeholders are named ":filterValue0" and ":filterValue1", from left to right |
| FilterSqlProofs.TextParses | plugins/sqlite/sqlitehistoryplugin.cpp:1529-1568 | the text, whatever closes it and whatever a LIKE literal in it contains, reads back as one condition with the tree's structure and nothing left over |
| FilterSqlProofs.ParsesExactly | plugins/sqlite/sqlitehistoryplugin.cpp:1529-1568 | the text reads as a condition with nothing left over if and only if every leaf has a property and a value and every compound has members; there is no text only for a filter that is hollow as a whole |
| FilterSqlProofs.HollowMemberDoesNotParse | plugins/sqlite/sqlitehistoryplugin.cpp:1535-1554 | a valid intersection of nothing but the default filter produces text that is no condition |
| FilterSqlProofs.CompileMeans | plugins/sqlite/sqlitehistoryplugin.cpp:1529-1568 | the condition evaluates, NULL included, to what the filter tree selects |
| FilterSqlProofs.PlaceholdersAreBound | plugins/sqlite/sqlitehistoryplugin.cpp:1555-1567 | every placeholder is bound |
| FilterSqlProofs.CompiledFilterSelects | plugins/sqlite/sqlitehistoryplugin.cpp:1514-1572 | for every well-formed tree, MatchContains included, the text parses completely, its placeholders are bound, and evaluating it on any row, NULL included, gives what the tree selects |
| FilterSqlProofs.SelectedRowsMatch | plugins/sqlite/sqlitehistoryplugin.cpp:1529-1568 | without MatchContains only rows that match are selected, and all of them if NULL is never what a leaf asks for |
| FilterSqlProofs.CompiledFilterMeansMatch | plugins/sqlite/sqlitehistoryplugin.cpp:1514-1572 | without MatchContains and on rows without NULL the condition is true or false as the filter matches or not |
| FilterSqlProofs.RebuiltCompiledMeansMatch | plugins/sqlite/sqlitehistoryplugin.cpp:1514-1572 | the condition compiled from the rebuilt filter, which is what the server uses, says what the original matches, which is what the client uses, wherever nothing that is lost matters |
| FilterSqlProofs.NullColumnsDifferExactly | plugins/sqlite/sqlitehistoryplugin.cpp:1562-1568 | on a leaf selection and matching agree if and only if the column is not NULL, or the leaf does not ask for it: not by "not equals", nor by being equal to no text |
| FilterSqlProofs.NullIsNotSelected | plugins/sqlite/sqlitehistoryplugin.cpp:1562-1568 | for every value, a row whose property is NULL matches one of the two kinds of leaf and is not selected by it |
| FilterSqlProofs.ContainsDiffersExactly | plugins/sqlite/sqlitehistoryplugin.cpp:1558-1561 | on a MatchContains leaf selection and matching agree if and only if the text is the value or does not contain it |
| FilterSqlProofs.ContainedIsSelected | plugins/sqlite/sqlitehistoryplugin.cpp:1558-1561 | a longer text that contains the value is selected by a MatchContains leaf and does not match it |
| LikeEscaping.EscapeIsPerCharacter | plugins/sqlite/sqlitehistoryplugin.cpp:1574-1582 | the four successive replacements equal one map per character, for every string |
| LikeEscaping.LiteralReadsBack | plugins/sqlite/sqlitehistoryplugin.cpp:1577-1578 | a text with doubled quotes reads back as the text, and nothing in it ends the literal |
| LikeEscaping.PatternReads | plugins/sqlite/sqlitehistoryplugin.cpp:1577-1580 | the escaped value reads as the pattern of exactly its characters |
| LikeEscaping.LikeFindsExactlyTheValue | plugins/sqlite/sqlitehistoryplugin.cpp:1559-1582 | for every value the condition's literal ends where it should, its content is a proper pattern, and it matches exactly the texts containing the value, up to case folding |
| HistoryDaemon.Backend.GetSingleThread | plugins/sqlite/sqlitehistoryplugin.cpp:545-593 | without grouping a thread is found exactly when it is stored and its ids are not blank, with the count of its events |
| HistoryDaemon.Daemon.RemoveTheEvents | daemon/historydaemon.cpp:512-531 | it succeeds exactly if no statement fails, and then exactly the text and voice events of the request are gone |
| HistoryDaemon.Daemon.Classify | daemon/historydaemon.cpp:537-556 | the loop files every touched thread by its final count, up to equal hashes |
| HistoryDaemon.Daemon.RemoveTheThreads | daemon/historydaemon.cpp:558-566 | it succeeds exactly if no statement fails, and then exactly the filed threads and their events are gone |
| HistoryDaemon.Daemon.RemoveEvents | daemon/historydaemon.cpp:504-578 | it succeeds exactly if there is a backend and no statement fails; failure leaves the database as it was and announces nothing. On success every stored text or voice thread with an account and an id that is not blank, of which the request names an event, stays and is announced as modified if an event that counts is left to it, and otherwise is gone and announced as removed, up to equal hashes; every other thread stays and is not announced; an event is gone exactly if it is named or its thread is |
| HistoryDaemon.RemovalOutcome | daemon/historydaemon.cpp:504-578 | this outcome, said thread by thread and event by event without the sets that the removal is computed with, follows for every request and every way of filing |
| HistoryDaemon.TouchedExactly | plugins/sqlite/sqlitehistoryplugin.cpp:545-593 | the threads looked at are exactly the stored ones of either type, with an account and an id that has a character that is not blank, of which the request names an event |
| HistoryDaemon.OrderAndRepetitionDoNotMatter | daemon/historydaemon.cpp:533-556 | the outcome depends only on the set of events in the request |
| HistoryDaemon.NoEmptyThreadIsLeft | daemon/historydaemon.cpp:533-566 | a touched thread is emptied or remaining, not both; it is left exactly when it has counted events, and then with exactly those not requested |
| HistoryDaemon.RemovalChangesExactly | daemon/historydaemon.cpp:504-578 | a thread goes exactly when the request mentions it and names all its counted events, an event exactly when it is named or its thread goes; nothing else changes |
| HistoryDaemon.FilesExactly | daemon/historydaemon.cpp:549-555 | filing by hash keeps every thread if and only if their hashes differ |
| HistoryDaemon.RemovalIsCompleteExactly | daemon/historydaemon.cpp:537-576 | removed and modified notifications are disjoint; they and the removal are complete if and only if the hashes tell the threads apart |
| HistoryDaemon.PlainAccountsLoseNothing | daemon/historydaemon.cpp:537-576 | when no account id contains the mark '#', the removal and both notifications are always complete |
| HistoryDaemon.HashInjective | daemon/historydaemon.cpp:1281-1287 | hashes of threads whose account ids do not contain the mark '#' are different for different threads |
| HistoryDaemon.HashesCollide | daemon/historydaemon.cpp:1281-1287 | a separator inside an account id makes two threads share a hash |
| ThreadView.ParseThreadResults | plugins/sqlite/sqlitehistoryplugin.cpp:1228-1392 | the loop keeps the rows that are not blank, those without participants last |
| ThreadView.ParsedIsNonBlank | plugins/sqlite/sqlitehistoryplugin.cpp:1228-1392 | parsing a page loses and repeats nothing but blank rows |
| ThreadView.ParsedPlaces | plugins/sqlite/sqlitehistoryplugin.cpp:1228-1392 | every row with an id that is not blank is listed in its place: behind the earlier ones of its kind, and irc rooms behind all others; nothing else is listed |
| ThreadView.ThreadView.NextPage | plugins/sqlite/sqlitehistorythreadview.cpp:88-107 | a page is the next rows of the snapshot, and what is left shrinks by exactly them; a failing statement yields nothing and invalidates the view |
| ThreadView.ReadAllPages | plugins/sqlite/sqlitehistoryplugin.cpp:67-75 | the loop terminates on every snapshot and collects the pages up to the first empty one, or those before the statement that failed |
| ThreadView.UpdateGroupedThreadsCache | plugins/sqlite/sqlitehistoryplugin.cpp:64-77 | the cache is loaded with what was collected, both maps in step |
| ThreadView.LoadedIsStored | plugins/sqlite/sqlitehistoryplugin.cpp:64-77 | everything collected is stored, nothing twice |
| ThreadView.LoadedCompletely | plugins/sqlite/sqlitehistoryplugin.cpp:64-77 | every row is read exactly once, up to order, if and only if no page of blank rows comes before one that is not blank |
| ThreadView.NoBlankRows | plugins/sqlite/sqlitehistoryplugin.cpp:64-77 | without blank rows the loading is complete |
| ThreadView.BlankPageHidesThread | plugins/sqlite/sqlitehistoryplugin.cpp:64-77 | a page of blank rows hides the thread stored after it |
| ThreadView.LoadedCacheHoldsStore | plugins/sqlite/sqlitehistoryplugin.cpp:64-77 | the cache then starts proper and holds exactly the stored text threads |
| GroupedListing.ListGrouped | plugins/sqlite/sqlitehistoryplugin.cpp:1238-1392 | the loop keeps exactly the rows that are conversation keys and attaches the conversations, rows without participants last |
| GroupedListing.ListingInOrder | plugins/sqlite/sqlitehistoryplugin.cpp:1238-1392 | the rows come in the order in which they are parsed, exactly those whose key is that of a conversation |
| GroupedListing.GroupTotal | Ubuntu/History/historygroupedthreadsmodel.cpp:51-66 | the loop sums a count over a group's threads |
| GroupedListing.OneRowPerConversation | plugins/sqlite/sqlitehistoryplugin.cpp:1248-1261 | every conversation has exactly one row, that of its displayed thread, with all its threads attached |
| GroupedListing.AttachedIsStore | plugins/sqlite/sqlitehistoryplugin.cpp:1248-1261 | the attached lists together are a permutation of the stored threads |
| GroupedListing.GroupedTotals | Ubuntu/History/historygroupedthreadsmodel.cpp:49-66 | count and unread sums over the groups equal the sums over all stored threads |

## Left out

- D-Bus, Telepathy, QML roles, contacts, timers, files and attachments; time zones (timestamps are integers); the inside of the phone number library.
- The SQL engine and the schema: the database is a set of threads and a map of events, deleting a thread deletes its events as the triggers do, and a thread's count is the number of its events that count.
- ConversationCaches.ConversationCache.RemoveThreadFromCache: for threads that are not text it only says what is dropped from the maps; when that is harmless is `BlindRemoval`.
- ConversationCaches.ConversationCache.AddThread: requires that an equal key means the same thread, because keys do not separate the two ids (`KeysIdentifyExactly`), and that a thread does not start or stop being grouped (`UngroupedUpdateExactly`); the same holds for the other methods of the cache.
- ConversationPartition.RunIsPartition: requires fixed chat types and participants, because an update never regroups a thread.
- ConversationCaches.ConversationCache.UpdateDisplayedThread: keys are passed by value; the program passes references into the map it changes.
- ClientMirror.RunBoth: text threads with ids that are not empty and that do not lose all their participants (`MirrorSurvivesExactly`), sorting by last event time descending, each change delivered before the next; out-of-order delivery and the client's first pages are not modelled.
- GroupedThreadsModel.GroupedThreads.ExistingPositionForEntry: grouping by participants only, not by another property; change notifications and the list of changed groups are not modelled.
- GroupedEventsModel.GroupedEvents.OnEventsRemoved: does not say that the events are gone, because the position lookup may miss them (`RemovalFindsExactly`); the order of the groups is not kept in general (`RemovedAtInOrder`).
- EventGroups.AddedAtContent: does not say that an event is in one group only, because it need not be (`AddedAgainExactly`); the same holds for `OnEventsAdded`.
- HistoryModel.BeforeIsStrictWeakOrder: asks for a total order of the property values; conversions between QVariant types in comparisons are not modelled, and strings compare by character rather than by UTF-16 unit.
- Filters.MatchFilter: values are texts, null values or no values at all; a null text equals an empty one, and conversions between types in a comparison are not modelled.
- FilterSqlProofs.CompiledFilterSelects: column names without '=', '!', blanks or parentheses, rows that have every named property, and trees whose text reads as a condition (`ParsesExactly`).
- The textual replacement of column names in a compiled condition (plugins/sqlite/sqlitehistoryplugin.cpp:1179-1182), which can also change the text of a LIKE value.
- Filters.FilterFrom: maps with entries of the wrong type read as missing ones, and the D-Bus form of nested maps is not modelled.
- HistoryDaemon.Daemon.RemoveEvents: failure restores the database only; threads already taken out of the conversation cache are not put back, and the cache is not part of that model.
- HistoryDaemon.Backend.GetSingleThread: a failing query is not modelled, and a thread id with quotes is looked up as it is.
- ThreadView.ParseThreadResults: rows are whole threads; fetching their participants, attachments and room properties is left out.
- Atomicity of `writeEvents`, which opens and commits its own transactions; the empty thread properties an event with a blank id adds to the cache.
- The text form of filters, getters, setters, copy constructors and role tables: they add only easy members.
