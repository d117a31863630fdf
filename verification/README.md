# A verified model of the chat server's core

This project models the parts of a Conduit (Matrix homeserver) fork with Solana wallet login that
carry its guarantees, and proves those guarantees in Dafny. `dafny verify dfyconfig.toml` checks all
of it.

What is modelled, from the ground up:

- **Bytes and trees.** The database is a byte-keyed, lexicographically ordered map (`Bytes`,
  `KvTree`, `CounterLog`). Composite keys are UTF-8 parts separated by `0xff`, then big-endian
  counters. UTF-8 never contains `0xff` (section 1 of RFC 3629), big-endian order is numeric order,
  and keys with one prefix are contiguous; every store below rests on these facts.
- **Stores over trees.** Account data (`LiveIndex`, `AccountData`), the to-device queue
  (`ToDevice`), the key-change log (`KeyChanges`), access tokens (`Devices`), the outgoing queue
  (`Sending`), room timelines (`PduIds`, `Timeline`) and the search index (`Search`) are classes
  over `KvTree`, proved against plain maps, sets and histories.
- **Protocols.** Prefix watchers (`Watchers`), `/sync` of timelines (`SyncTimeline`), of room state
  (`SyncState`) and of account data and key changes (`SyncScans`), account-data updates
  (`UpdateRaces`), to-device acknowledgement (`ToDevice`), marking of outgoing requests (`Sending`)
  and login nonces (`Nonces`) are transition systems. Their theorems speak about every reachable
  state of every run, with the steps of different participants interleaved freely.
- **Algorithms.** Base58 and hex with the `solana_` localpart (`Radix`, `Base58`), the
  missing-events walk (`MissingEvents`), proxy rules (`Proxy`), intersection of sorted streams
  (`CommonElements`), the search merge, its pages and the request as a whole (`SearchMerge`,
  `SearchPages`, `SearchRoute`) and the signing-key merges (`SigningKeys`).

Some promises hold of the code only under a condition. The model keeps the code as it is, proves when
the promise holds, and proves that it fails otherwise:

- Whoever registers and then misses a key is signalled when the key is brought by an `insert`, or
  written by one later (`NoLostUpdate`); a batch that brings it wakes nobody (`QuietIsFromBatch`,
  `BatchIsMissed`).
- An account-data slot at rest has exactly the entry that the index names if and only if no update
  has repointed it blindly, after finding another entry than the one it took the index away from
  (`OneEntryIff`, `StaleIff`). It reads back the latest update if and only if that one repointed
  last (`LatestIff`, `BehindIff`, `CurrentIsLastRepointed`). Updates of the slot that do not overlap
  meet both conditions (`SeparateIsSafe`); nothing in the code keeps them apart, and two that
  overlap can break both for good (`OverlapLosesUpdate`, `OrphanStays`).
- A reader of account data follows the index and then reads the entry. It comes away empty from a
  slot that has a value if and only if an update removed the entry in between (`ReaderMissesIff`,
  `ReaderCanMiss`).
- Account data and key changes with a position between the tokens of a sync are shown by it, exactly
  unless they had taken the position and were not yet written when the sync looked; no later sync
  shows those (`ShownIff`, `ChainShowsIff`, `InFlightIsMissed`).
- A waiting to-device event that no answer lists can be removed unlisted if and only if some answer
  carried a token at or above it; one that is counted but not yet stored always can
  (`WaitingCanBeLostIff`, `InFlightCanBeLost`, `RemovedWasDelivered`).
- A client stays in agreement with the state of a room, sync after sync, exactly until another
  client's sync at the same position replaces the record behind its token by a state it does not
  have (`SoundUnlessOverwritten`, `ClientAgrees`); then its next poll leaves it in disagreement
  (`OverwriteIsMissed`, `AgreesAfterOverwriteIff`). Setting the state does not advance the counter,
  so this can happen (`UnspacedChangeIsMissed`); it cannot while the room's state changes only at
  positions at which no sync of the room has been answered (`SpacedIsUndisturbed`). Keys that the
  server drops are never taken from a client (`ExactUnlessDropped`).
- An outgoing event is lost exactly when a cleanup hits its last mark in the middle and it is not
  queued again after that mark (`NothingLost`, `DisturbedMarkLoses`). An ephemeral event without
  content is read back as a stored event (`ParseQueued`).
- A backward timeline scan from position 1 visits nothing, although backfilled events come before
  that position, and one from position 0 wraps around and visits everything (`Visited` in
  `Timeline`, stated by `PdusUntil`).
- Following the tokens of a search shows every visible result if and only if none lies behind the
  page of the first result that the user may not see; paging always ends on that page
  (`CompleteIff`, `EndIsHiddenPage`, `PagingEnds`). With a limit of 0 it never ends
  (`ZeroLimitNeverEnds`).
- The client's address decoder accepts strings that are not 32-byte addresses (`DecodersAgree`,
  `ClientCollision`).

The comment on proxy rules says that an empty include list is assumed to be `["*"]`. In the code the
empty list uses a rule of its own that parsing never yields; `EmptyIncludeIsStar` shows that the two
nevertheless decide alike.

## Model

| member | source | states |
|---|---|---|
| Bytes.U64RoundTrip | server/src/utils/mod.rs:66-69 | reading the big-endian bytes of a counter gives the counter back |
| Bytes.Be64Order | server/src/database/abstraction/sqlite.rs:258-289 | the byte order of big-endian counters is their numeric order |
| Bytes.Utf8IsText | server/src/database/key_value/account_data.rs:22-37 | UTF-8 of any string is free of the separator byte, so separators delimit parts unambiguously |
| Bytes.PairPrefix | server/src/database/key_value/users.rs:797-801 | a key starts with a user-and-device prefix exactly when it belongs to that user and device |
| Bytes.CounterSeek | server/src/database/key_value/users.rs:588-592 | seeking to prefix plus counter n skips exactly the smaller counters, whatever follows the counter |
| KvTree.SeekTakeWhileExact | server/src/database/abstraction/sqlite.rs:248-304 | seek then take-while-prefix visits exactly the keys of the prefix on that side of the seek, in order, in both directions |
| KvTree.ScanPrefixExact | server/src/database/abstraction/sqlite.rs:319-324 | a prefix scan visits exactly the keys of the prefix, ascending |
| KvTree.KvTree.IterWithin | server/src/database/abstraction/rocksdb.rs:188-213 | the loop that takes rows while the prefix matches returns exactly those rows |
| KvTree.KvTree.InsertBatch | server/src/database/abstraction/sqlite.rs:200-212 | rows are written in order: the last row for a key decides its value and keys not named keep theirs |
| KvTree.Globals.NextCount | server/src/database/key_value/globals.rs:23-26 | hands out and stores the successor of the current count; counting starts at 1, also when the stored bytes are not eight |
| KvTree.Globals.CurrentCount | server/src/database/key_value/globals.rs:28-33 | returns the count last handed out, 0 before the first, and fails exactly when other than eight bytes are stored |
| CounterLog.SeekIsCut | server/src/database/key_value/users.rs:588-613 | seeking to prefix plus n visits exactly the entries with counter at least n (at most n backwards), in counter order |
| CounterLog.ScanIsLog | server/src/database/key_value/users.rs:797-808 | a whole prefix is visited in the order of its counters |
| Watchers.Watchers.Watch | server/src/database/abstraction/watchers.rs:16-33 | joins the existing channel of the prefix or opens a new one, and changes nothing else |
| Watchers.Watchers.WakeRead | server/src/database/abstraction/watchers.rs:34-43 | the read phase finds exactly the watched prefixes of the key, shortest first |
| Watchers.Watchers.WakeWrite | server/src/database/abstraction/watchers.rs:46-53 | the write phase signals and forgets exactly the channels of those prefixes that are still there |
| Watchers.Watchers.Wake | server/src/database/abstraction/watchers.rs:34-54 | without interference exactly the watchers of prefixes of the key are forgotten and exactly their channels signalled |
| Watchers.NoLostWake | server/src/database/abstraction/watchers.rs:34-54 | in every interleaving, a watcher registered before the read phase of a wake on a key extending its prefix is signalled when that wake ends |
| Watchers.NoSpuriousWake | server/src/database/abstraction/watchers.rs:34-54 | whoever is signalled was so, after registering, by the write phase of an insert of a key extending their prefix |
| Watchers.LaterInsertSees | server/src/database/abstraction/watchers.rs:16-43 | a registration stays, and the read phase of every insert that starts later sees it |
| Watchers.NoLostUpdate | server/src/database/abstraction/sqlite.rs:192-198 | whoever registers and then misses a key has been signalled once the key is there, was not last brought by a batch without an insert since, and the inserts of it that began since have ended |
| Watchers.QuietIsFromBatch | server/src/database/abstraction/sqlite.rs:200-212 | the keys outside that promise were brought by a batch and not touched since |
| Watchers.BatchIsMissed | server/src/database/abstraction/sqlite.rs:200-212 | from every reachable state, whoever is registered and unsignalled and misses a key stays unsignalled when a batch brings it |
| LiveIndex.UpdateRefines | server/src/database/key_value/account_data.rs:46-59 | one write keeps exactly one live entry per slot and keeps the index naming it |
| LiveIndex.LaterRefines | server/src/database/key_value/globals.rs:23-26 | positions taken by other parts of the server keep the trees in agreement |
| LiveIndex.RunRefines | server/src/database/key_value/account_data.rs:15-62 | after every sequence of writes, refused ones included and with any positions in between taken elsewhere, the two trees are exactly the map of last accepted writes |
| AccountData.KeysInjective | server/src/database/key_value/account_data.rs:22-37 | different slots and counts never share a key in either tree |
| AccountData.GetIsLastWrite | server/src/database/key_value/account_data.rs:66-95 | after every sequence of updates at increasing positions a slot reads back the last accepted value, or none |
| AccountData.ChangesExact | server/src/database/key_value/account_data.rs:132-166 | the scan after a position finds exactly the live entries of that room and user written later |
| AccountData.ChangesAreLastWrites | server/src/database/key_value/account_data.rs:132-166 | after every sequence of updates at increasing positions, a type is reported exactly when its last accepted write took a position after the given one, with that value |
| AccountData.AccountData.Update | server/src/database/key_value/account_data.rs:15-62 | takes a count and fails exactly without `type` or `content`, leaving both trees alone; otherwise the body is the only live value of its slot, at the new count, and reads back from the trees |
| AccountData.AccountData.Replace | server/src/database/key_value/account_data.rs:46-59 | writes the entry, repoints the index and removes exactly the entry it named before |
| AccountData.AccountData.Get | server/src/database/key_value/account_data.rs:66-95 | returns the value of the slot in the abstract map, and fails exactly when it cannot be read |
| AccountData.AccountData.ChangesSince | server/src/database/key_value/account_data.rs:132-166 | returns exactly the types of the abstract map written after the position, with their values, and fails exactly when one of them cannot be read |
| AccountData.AccountData.CounterMovedElsewhere | server/src/database/key_value/globals.rs:23-26 | the store stays valid when the counter moves for other reasons |
| UpdateRaces.OneEntryIff | server/src/database/key_value/account_data.rs:46-59 | in every run, one tree operation at a time, a slot at rest has exactly the entry the index names if and only if it was never repointed blindly |
| UpdateRaces.StaleIff | server/src/database/key_value/account_data.rs:46-59 | a slot counts as stale exactly when some step of the run repointed it by an update that had found another entry than the one the index named |
| UpdateRaces.CurrentIsLastRepointed | server/src/database/key_value/account_data.rs:46-59 | in every run the index names the entry of the update that repointed the slot last, with the value of that update |
| UpdateRaces.LatestIff | server/src/database/key_value/account_data.rs:46-59 | in every run a slot at rest names the latest position of its updates if and only if the last update to repoint it did not come after one with a later position |
| UpdateRaces.BehindIff | server/src/database/key_value/account_data.rs:46-59 | a slot counts as behind exactly when its last repoint in the run came when an update with a later position had already repointed |
| UpdateRaces.SeparateIsSafe | server/src/database/key_value/account_data.rs:46-59 | while the updates of a slot do not overlap, whatever those of other slots do, it is neither stale nor behind |
| UpdateRaces.NeverDangling | server/src/database/key_value/account_data.rs:46-59 | in every run, overlapping updates included, the entry that the index names is there after every single tree operation |
| UpdateRaces.OverlapLosesUpdate | server/src/database/key_value/account_data.rs:46-59 | from every reachable state with the slot at rest, two overlapping updates can both finish and leave the earlier value current and the later one as an orphan, with the slot stale and behind |
| UpdateRaces.OrphanStays | server/src/database/key_value/account_data.rs:46-59 | no later step of any run removes an orphaned entry |
| UpdateRaces.ReaderMissesIff | server/src/database/key_value/account_data.rs:82-92 | in every run, a reader that follows the index and later reads the entry misses it if and only if an update removed it in between, and otherwise gets the value that was current when it followed the index |
| UpdateRaces.ReaderCanMiss | server/src/database/key_value/account_data.rs:82-92 | from every reachable state with a value at rest, one update makes such a reader come away empty |
| SyncScans.ShownIff | server/src/api/client_server/sync.rs:604-615 | in every interleaving of writers and syncs, an entry that is there with a position between the tokens of an answer was shown by it exactly unless it was counted but not written when the sync looked |
| SyncScans.ChainShowsIff | server/src/api/client_server/sync.rs:604-615 | over a chain of syncs an entry was shown by one of them if and only if it was not on its way when the sync that covers its position looked |
| SyncScans.InFlightIsMissed | server/src/database/key_value/account_data.rs:32-49 | from every reachable state with an entry on its way, a sync that looks before it is written misses it |
| SyncScans.TokenIsBegin | server/src/api/client_server/sync.rs:192-196 | the old token of a sync is the one it was asked with, the new one the position at which it began |
| SyncScans.AnswerShowsRows | server/src/api/client_server/sync.rs:604-615 | an answer shows exactly the entries above its old token that were there when it was given, and missed exactly those on their way then |
| KeyChanges.KeyChanges.MarkDeviceKeyUpdate | server/src/database/key_value/users.rs:626-657 | takes one new count, stores the user with it under each encrypted room and under the user, keeps every other row, and thereby extends the history of changes |
| KeyChanges.KeyChanges.KeysChanged | server/src/database/key_value/users.rs:582-624 | after every history, yields exactly the users with a change in (from, to] filed under the id, in order, and none of them fails to parse |
| KeyChanges.RunTableHas | server/src/database/key_value/users.rs:626-657 | after every run of changes, an id holds exactly the changes filed under it |
| KeyChanges.ReportedIffMarked | server/src/database/key_value/users.rs:582-657 | after every run, a user is reported for (from, to] under an id exactly when a change of theirs in that range was filed there |
| ToDevice.RemoveUntilExact | server/src/database/key_value/users.rs:812-844 | acknowledging removes exactly that device's events with counts up to the bound and keeps the others with their values |
| ToDevice.ToDevice.AddToDeviceEvent | server/src/database/key_value/users.rs:764-788 | stores the event under a new count |
| ToDevice.ToDevice.GetToDeviceEvents | server/src/database/key_value/users.rs:790-810 | lists all pending events of the device in the order of their counts, and fails exactly when one of them cannot be read |
| ToDevice.QueueIs | server/src/database/key_value/users.rs:790-810 | a listing is the stored values of the device under their counts, ascending, none left out |
| ToDevice.ToDevice.RemoveToDeviceEvents | server/src/database/key_value/users.rs:812-844 | the deletion loop removes exactly those events; its count test never ends it early |
| ToDevice.ScanIsQueue | server/src/database/key_value/users.rs:797-808 | the listing of the tree is the ascending list of pending counts used by the protocol |
| ToDevice.TokenIsBegin | server/src/api/client_server/sync.rs:192-196 | the token of a request is the position at which it began |
| ToDevice.AnswerListsQueue | server/src/api/client_server/sync.rs:623-627 | an answer lists, ascending, exactly the events waiting when it was given |
| ToDevice.RemovedWasDelivered | server/src/api/client_server/sync.rs:585-588 | in every run with concurrent syncs and additions, a removed event was in an answer or was in flight when a sync with a token at or above it read the queue |
| ToDevice.WaitingCanBeLostIff | server/src/api/client_server/sync.rs:585-588 | in every reachable state a waiting event that no answer lists can be removed unlisted if and only if some answer carried a token at or above it |
| ToDevice.OvertakenIff | server/src/api/client_server/sync.rs:585-588 | those are exactly the events that were in flight when a sync with such a token read the queue |
| ToDevice.AtomicRunsLoseNothing | server/src/api/client_server/sync.rs:623-627 | if counting and storing an event are not separated, every removed event was in an answer |
| ToDevice.InFlightCanBeLost | server/src/database/key_value/users.rs:772-785 | in every reachable state every event in flight can still be removed undelivered |
| Devices.ParseDeviceKey | server/src/database/key_value/users.rs:44-70 | splitting a stored device key gives back the user and device |
| Devices.SetTokenKeeps | server/src/database/key_value/users.rs:286-307 | giving a token keeps the two token trees inverse exactly when no other device holds it |
| Devices.TokenResolves | server/src/database/key_value/users.rs:44-70 | after every run with unused tokens, a token that resolves leads to the device it was issued for, which has metadata and this token |
| Devices.CurrentTokenResolves | server/src/database/key_value/users.rs:44-70 | after every run the current token of a device resolves to it |
| Devices.OldTokenDies | server/src/database/key_value/users.rs:231-307 | replacing a token or removing its device ends the previous token at once |
| Devices.DeadTokensStayDead | server/src/database/key_value/users.rs:231-307 | a token that was issued and no longer resolves never resolves again |
| Devices.Devices.SetToken | server/src/database/key_value/users.rs:286-307 | the device has the new token, which leads to it, its old token leads nowhere, and other devices keep theirs |
| Devices.Devices.CreateDevice | server/src/database/key_value/users.rs:197-228 | stores the metadata and gives the token, which leads to the device; raises the user's device-list version by one, from 1 at first; other devices keep theirs |
| Devices.Devices.RemoveDevice | server/src/database/key_value/users.rs:231-258 | removes token, metadata and exactly that device's queued events, ends its token, and raises the user's device-list version by one; other devices keep theirs |
| Devices.Devices.Find | server/src/database/key_value/users.rs:44-70 | returns the device of the token, and fails exactly on an entry without separator or with unreadable parts |
| Sending.ParseKey | server/src/database/key_value/sending.rs:129-205 | parsing any key of a destination recovers the destination, also when separators occur in what follows |
| Sending.ParseQueued | server/src/database/key_value/sending.rs:129-205 | what `queue_requests` writes parses back to destination and event exactly when it is not an ephemeral event without content |
| Sending.BatchParses | server/src/database/key_value/sending.rs:61-85 | each row of a queued batch parses back into its request exactly when that is not an ephemeral event without content |
| Sending.ParseKeepsContent | server/src/database/key_value/sending.rs:99-111 | a parsed event is written back with the value it was read from |
| Sending.PrefixSelects | server/src/database/key_value/sending.rs:39-59 | a destination's prefix selects exactly that destination's keys |
| Sending.SameKeySameRow | server/src/database/key_value/sending.rs:61-85 | two queued rows with one key are the same row |
| Sending.DeletionIsExact | server/src/database/key_value/sending.rs:39-59 | deleting a destination's rows keeps every row of every other destination |
| Sending.Sending.QueueRequests | server/src/database/key_value/sending.rs:61-85 | writes one row per request with consecutive counts for ephemeral events and returns the keys; under each key waits the content of its last request, and no other key changes |
| Sending.Sending.MarkAsActive | server/src/database/key_value/sending.rs:99-111 | each marked key is active with the content of its last event, empty for a stored one, and no longer waits; every other key of both trees is as before |
| Sending.Sending.DeleteActiveRequest | server/src/database/key_value/sending.rs:35-37 | removes one active row |
| Sending.Sending.DeleteAllActiveRequestsFor | server/src/database/key_value/sending.rs:39-46 | removes exactly the active rows of the destination |
| Sending.Sending.DeleteAllRequestsFor | server/src/database/key_value/sending.rs:48-59 | removes exactly the destination's rows from both trees |
| Sending.NothingLost | server/src/database/key_value/sending.rs:99-111 | at every single tree operation of every run, a queued event not deleted since is in one of the trees with its content, exactly unless a cleanup hit its last mark, that mark has ended and it was not queued since |
| Sending.HeldParses | server/src/database/key_value/sending.rs:129-205 | what is held parses back into the destination and event that were queued |
| Sending.MarkingIsRun | server/src/database/key_value/sending.rs:99-111 | from every reachable state, marking events one after the other is a run of the two steps for each, and it leaves the two trees as `MarkAsActive` does |
| Sending.DisturbedMarkLoses | server/src/database/key_value/sending.rs:99-111 | from every state in the middle of a mark, a cleanup and a new queueing of the event lose it |
| PduIds.CountOfPduId | server/src/database/key_value/rooms/timeline.rs:308-320 | an event key gives its count back, exactly when the room number is not 0 or the event is backfilled |
| PduIds.PduIdOrder | server/src/service/rooms/timeline/mod.rs:82-91 | event keys of a room are stored in the order of their counts, exactly when no normal count 0 meets a backfilled one |
| Timeline.InsertGrows | server/src/database/key_value/rooms/timeline.rs:159-198 | storing an event adds exactly it to its room |
| Timeline.InsertElsewhere | server/src/database/key_value/rooms/timeline.rs:159-198 | storing an event leaves every other room as it was |
| Timeline.Timeline.PdusUntil | server/src/database/key_value/rooms/timeline.rs:228-253 | from every position the backward scan yields exactly the readable events before it, newest first, with the exceptions at positions 0, 1 and the last backfilled one stated |
| Timeline.Timeline.LastTimelineCount | server/src/database/key_value/rooms/timeline.rs:15-40 | returns the cached position or else finds and caches the greatest one, 0 for an empty room |
| Timeline.TakeLast | server/src/api/client_server/sync.rs:1227-1251 | taking newest first and reversing gives the newest events after the token in order, at most `limit`, limited exactly when one is left out |
| Timeline.Timeline.LoadTimeline | server/src/api/client_server/sync.rs:1213-1257 | with a right cached position the response is the newest events after the token, and in any case what comes after a shown event is shown, the events ascend, there are at most `limit` and, if limited, just as many |
| Timeline.ShowsUnique | server/src/api/client_server/sync.rs:1213-1257 | that specification determines events and flag uniquely |
| Timeline.LimitedIff | server/src/api/client_server/sync.rs:1249-1251 | a response is limited exactly when more than `limit` events come after the token, and shows all of them if not |
| Timeline.Timeline.AppendPdu | server/src/database/key_value/rooms/timeline.rs:159-180 | stores the event's row and keeps all others, moves the cached position to it, keeps the cache right for a new greatest count, and makes the event id lead to it and be no outlier |
| Timeline.Timeline.PrependBackfillPdu | server/src/database/key_value/rooms/timeline.rs:182-198 | stores the row of a backfilled event, which comes before all others, and keeps all others, so that the cached position stays right, and makes the event id lead to it and be no outlier |
| SyncTimeline.AnswerIsExact | server/src/api/client_server/sync.rs:668-684 | in every interleaving an answer shows exactly the newest events of what it read, and it read every event up to its token |
| SyncTimeline.NothingSkipped | server/src/api/client_server/sync.rs:192-196 | in every interleaving of writers, cache fills and syncs, each event between the tokens of a response is in it or the response is limited, at its time and ever after |
| SyncTimeline.ShowsNewest | server/src/api/client_server/sync.rs:1240-1247 | in every interleaving an answer ascends and leaves out no event up to its token that comes after one it shows |
| SyncTimeline.FewAreAllShown | server/src/api/client_server/sync.rs:668-684 | an answer has at most ten events, and ten if it is limited; if at most ten lie after the old token it is not limited and shows those up to the new one |
| SyncTimeline.TokenIsStart | server/src/api/client_server/sync.rs:192-196 | the new token of a sync is the position at which it started |
| SyncTimeline.ChainMissesNothing | server/src/api/client_server/sync.rs:668-684 | over a chain of syncs each event from first to last token is in one of the responses, or one was limited |
| SyncTimeline.CacheKeeps | server/src/database/key_value/rooms/timeline.rs:159-180 | every step keeps the cached position last, but for an event stored at this moment |
| SyncState.Collect | server/src/api/client_server/sync.rs:921-961 | the loop over the current state collects exactly the keys whose event differs, or all for a full state |
| SyncState.StateSection | server/src/api/client_server/sync.rs:714-983 | the no-change, full-state and delta branches give the section that the protocol uses |
| SyncState.SectionRepairs | server/src/api/client_server/sync.rs:914-961 | overlaying the section on a view that agreed with the recorded state gives agreement with the current state |
| SyncState.SectionIsDelta | server/src/api/client_server/sync.rs:914-961 | a section holds current values only and, for a room the client had and no full state, no unchanged key but repeated members; it is empty when nothing changed |
| SyncState.DeltaIsLeast | server/src/api/client_server/sync.rs:914-961 | without any one of its keys the difference leaves a client that holds just the recorded state in disagreement |
| SyncState.SoundUnlessOverwritten | server/src/api/client_server/sync.rs:1168-1173 | a step leaves a sound client unsound about a room exactly when it is another client's sync at the same position that records a state the client does not have |
| SyncState.ClientAgrees | server/src/api/client_server/sync.rs:1168-1173 | in every run a sync leaves its client with the server's event for every state key of a room, if the client was sound before, as at the start, and nobody has overwritten its record of that room since |
| SyncState.WholeStateIsSound | server/src/api/client_server/sync.rs:824-884 | a sync that sends the whole state of a room makes its client sound about it, whatever happened before |
| SyncState.OverwriteIsMissed | server/src/database/key_value/rooms/user.rs:65-83 | in every run, the poll that a client makes right after its record was overwritten leaves it in disagreement |
| SyncState.AgreesAfterOverwriteIff | server/src/api/client_server/sync.rs:714-983 | any sync of the client right after the overwrite leaves agreement if and only if it is not quiet and repeats every key that the client misses |
| SyncState.SpacedIsUndisturbed | server/src/database/key_value/rooms/user.rs:65-83 | while a room's state changes only at positions at which no sync of it has been answered, no client's record of it is overwritten |
| SyncState.ExactUnlessDropped | server/src/api/client_server/sync.rs:914-961 | then the client holds exactly the server's state if and only if it held no key the server has dropped |
| SyncState.UnspacedChangeIsMissed | server/src/database/key_value/rooms/user.rs:65-83 | from every reachable state in which a client has just synced, the state change at the same position, another client's first sync and the client's poll, in this order, leave it without the change |
| MissingEvents.VisitReturns | server/src/api/server_server.rs:1261-1303 | an event is returned exactly when it is known, readable, in the room, not an earliest event, visible and intact |
| MissingEvents.VisitFails | server/src/api/server_server.rs:1261-1303 | an event is refused as evil exactly when it is of another room, and as a bad row exactly when it is unreadable, without a valid room, or in the room, no earliest event and either of unknown visibility or visible without predecessors |
| MissingEvents.Walk | server/src/api/server_server.rs:1256-1309 | terminates on every graph; returns only returnable events, breadth first, each latest or named by an earlier one; below the limit nothing is left to add; an error names an event that was reached and is of another room or broken, as its kind says |
| MissingEvents.ShortAnswerIsExact | server/src/api/server_server.rs:1256-1309 | an answer below the limit is exactly the set of returnable events reachable from the latest ones through returnable events |
| MissingEvents.ShortAnswerIsClean | server/src/api/server_server.rs:1262-1279 | such an answer also means that every known event within reach is readable and in the room, and if no earliest event of known visibility and intact if visible |
| MissingEvents.NearestFirst | server/src/api/server_server.rs:1256-1309 | a returnable event that the limit cuts off is no fewer steps away from the latest events than any event of the answer |
| MissingEvents.RefusalIsReachable | server/src/api/server_server.rs:1262-1279 | a refusal names an event within reach |
| Base58.StrictDecodeEncode | client/src/encoding.ts:4-24 | every byte string of every length is recovered from its encoding by a strict decoder |
| Base58.EncodeStrictDecode | server/src/api/client_server/solana_auth.rs:99-112 | every string a strict decoder accepts is the encoding of its bytes |
| Base58.EncodeInjective | client/src/encoding.ts:4-24 | different byte strings, leading zeros counted, have different encodings |
| Base58.LenientDecodeEncode | client/src/encoding.ts:27-40 | every 32-byte key survives the client's encoder and decoder |
| Base58.DecodersAgree | client/src/encoding.ts:27-40 | client and strict decoder reject the same strings and agree exactly on 32-byte addresses |
| Base58.LenientIsSuffix | client/src/encoding.ts:27-40 | on every string of the alphabet the client's decoder gives the last 32 bytes of what the strict one gives, padded with zeros in front |
| Base58.EncodeLength | client/src/encoding.ts:4-24 | a 32-byte key is written with 32 to 44 characters |
| Base58.BytesToBase58 | client/src/encoding.ts:4-24 | the three loops compute the encoding, and strict decoding inverts them |
| Base58.Base58ToBytes | client/src/encoding.ts:27-40 | the two loops compute the fixed-width decoding, or fail with the first character outside the alphabet |
| Base58.HexToBytes | client/src/encoding.ts:50-56 | the loop writes byte k from characters 2k and 2k+1 with the parser's leniency |
| Base58.HexDecodeEncode | client/src/encoding.ts:43-56 | hex decoding inverts hex encoding |
| Base58.HexAt | client/src/encoding.ts:43-47 | each byte is written as two lower-case digits, the higher one first |
| Base58.LocalpartsAgree | client/src/encoding.ts:64-75 | client and server derive the same 71-character localpart for every address the server accepts, `solana_` and lower-case hex digits, and it converts back to the address |
| Base58.LocalpartInjective | server/src/api/client_server/solana_auth.rs:158-159 | different addresses get different localparts |
| Base58.ClientCollision | client/src/encoding.ts:27-40 | the empty string and the zero key collide on the client, and only the second is an address for the server |
| Proxy.MatchesIff | server/src/config/proxy.rs:103-109 | a wildcard rule matches exactly the domains that end in its suffix, an exact rule one domain |
| Proxy.ParsedMatches | server/src/config/proxy.rs:124-138 | `*.s` matches exactly what ends in `.s`, and so not `s`; `*` matches everything and any other text itself alone |
| Proxy.MoreSpecificIff | server/src/config/proxy.rs:111-122 | a rule is more specific than another exactly when the other is the implicit wildcard and it is not, or a wildcard whose suffix it ends in without being the same rule |
| Proxy.Transitive | server/src/config/proxy.rs:111-122 | being more specific is transitive |
| Proxy.Irreflexive | server/src/config/proxy.rs:111-122 | no rule is more specific than itself |
| Proxy.TotalOnMatches | server/src/config/proxy.rs:103-122 | rules matching one domain are comparable unless equal |
| Proxy.SpecificMatchesLess | server/src/config/proxy.rs:103-122 | a more specific rule matches no domain that the other does not |
| Proxy.MostSpecific | server/src/config/proxy.rs:68-87 | the loop finds the most specific matching rule, or none if none matches |
| Proxy.ForUrl | server/src/config/proxy.rs:64-94 | the proxy is used exactly when some matching include is more specific than every matching exclude |
| Proxy.ProxiedIff | server/src/config/proxy.rs:64-94 | a domain is proxied exactly when there are no includes and no exclude matches, or some matching include is more specific than every matching exclude |
| Proxy.FirstProxy | server/src/config/proxy.rs:43-52 | the first configuration that proxies the domain decides |
| Proxy.OrderIrrelevant | server/src/config/proxy.rs:64-94 | order and repetition of the rules do not matter |
| Proxy.EmptyIncludeIsStar | server/src/config/proxy.rs:24-29 | an empty include list decides like a list with `*` |
| CommonElements.Advance | server/src/utils/mod.rs:112-122 | a cursor moves past exactly the smaller elements and reports whether an equal one exists |
| CommonElements.Intersect | server/src/utils/mod.rs:103-125 | over sorted streams the filter with persistent cursors and early stop keeps exactly the elements with an equal in every other stream; no streams, no result |
| CommonElements.CommonIs | server/src/utils/mod.rs:110-125 | an element is kept exactly when it is in the first stream and has an equal in all others |
| SearchMerge.PickMax | server/src/api/client_server/search.rs:73-78 | picks the stream with the greatest head, the last of equals, exhausted streams below all |
| SearchMerge.Merge | server/src/api/client_server/search.rs:71-81 | for any number of descending streams, the result is descending and holds exactly the `rounds` greatest of their multiset union, or all |
| SearchMerge.TopUnique | server/src/api/client_server/search.rs:71-81 | only one list fits that description, so the spread over streams does not matter |
| SearchMerge.TopPrefix | server/src/api/client_server/search.rs:71-81 | fewer rounds give the beginning of what more rounds give |
| SearchPages.SearchEvents | server/src/api/client_server/search.rs:71-123 | a request returns the page of the visible part of the merge at its token, of at most `limit` visible results, and a next token exactly for a full page |
| SearchPages.PagesAreExact | server/src/api/client_server/search.rs:83-123 | following the tokens shows exactly the visible results up to the last page, in order, none twice and none skipped |
| SearchPages.HiddenResultEndsPaging | server/src/api/client_server/search.rs:119-123 | the page reached is followed by another exactly when its stretch is complete and all of it may be shown |
| SearchPages.SeenAllIff | server/src/api/client_server/search.rs:83-123 | the pages followed so far show every visible result exactly when none lies behind the last of them |
| SearchPages.EndIsHiddenPage | server/src/api/client_server/search.rs:119-123 | with a positive limit, wherever a client is stopped it is on the page of the first hidden result, or of the end |
| SearchPages.PagingEnds | server/src/api/client_server/search.rs:119-123 | with a positive limit every chain of tokens extends to one that is stopped |
| SearchPages.CompleteIff | server/src/api/client_server/search.rs:83-123 | a client that followed the tokens to the end has seen every visible result if and only if none lies behind the page of the first hidden one |
| SearchPages.ZeroLimitNeverEnds | server/src/api/client_server/search.rs:119-123 | with a limit of 0 every page is empty and leads back to itself |
| Search.SearchIndex.IndexPdu | server/src/database/key_value/rooms/search.rs:17-27 | adds exactly the keys of the event under each word, and thereby extends the history |
| Search.SearchIndex.DeindexPdu | server/src/database/key_value/rooms/search.rs:29-43 | removes exactly the keys of the event under each word, and thereby extends the history |
| Search.SearchIndex.WordStream | server/src/database/key_value/rooms/search.rs:60-74 | the backward scan of a word yields exactly the events filed under room and word, newest first |
| Search.SearchIndex.SearchPdus | server/src/database/key_value/rooms/search.rs:45-84 | after every history a room answers exactly the events indexed for every word, newest first, and nothing without words |
| Search.RunIndexHas | server/src/database/key_value/rooms/search.rs:17-43 | after every history a word leads to an event exactly when the last operation naming both indexed it |
| Search.OneMoreOp | server/src/database/key_value/rooms/search.rs:17-43 | an event just indexed is found by any of its words, one just deindexed by none of them, and operations on others change nothing |
| Search.AnswerAfterHistory | server/src/database/key_value/rooms/search.rs:45-84 | after every history a room's answer holds an event exactly when each word of the query is indexed for it |
| SearchRoute.SearchEvents | server/src/api/client_server/search.rs:38-123 | refuses exactly when the user is not in one of the rooms, and otherwise returns the page and token of the events of those rooms that have every word, newest first |
| SearchRoute.MergedHas | server/src/api/client_server/search.rs:71-81 | the result holds exactly the events that have every word in one of the rooms |
| SearchRoute.MergedUnique | server/src/api/client_server/search.rs:71-81 | history, rooms and words determine the result, so pages of different requests fit together |
| SearchRoute.NoEventTwice | server/src/api/client_server/search.rs:71-81 | a request that names each room once gets each event once |
| SearchRoute.EverythingIsFound | server/src/api/client_server/search.rs:71-123 | whoever may see all results and follows the tokens to the end has seen exactly the events that have every word in one of the rooms |
| Nonces.NonceStore.Generate | server/src/api/client_server/solana_auth.rs:58-91 | issues a nonce exactly for 32-byte addresses, pruning first, and returns the text to sign; otherwise changes nothing |
| Nonces.IssueKeeps | server/src/api/client_server/solana_auth.rs:75-84 | an issue keeps every other nonce while at most 10,000 are stored, and above that exactly those younger than 300 s |
| Nonces.SignMessageInjective | server/src/api/client_server/solana_auth.rs:171-175 | equal messages of one server come from equal nonces |
| Nonces.WellformedIff | server/src/api/client_server/solana_auth.rs:99-134 | a request is well-formed exactly when its address encodes a valid 32-byte key and its signature 64 bytes |
| Nonces.RefusedFor | server/src/api/client_server/solana_auth.rs:99-134 | the first part that is wrong, in the order address, length, key, signature, length, decides the refusal |
| Nonces.NonceStore.VerifyLogin | server/src/api/client_server/solana_auth.rs:95-167 | a well-formed request uses its nonce up whatever the outcome; success needs a stored nonce at most 300 s old and a signature over its message, and yields the localpart of the address |
| Nonces.LargeStoreIsYoung | server/src/api/client_server/solana_auth.rs:75-84 | a store left with more than 10,001 nonces holds only nonces younger than 300 s when it was pruned |
| Nonces.AcceptedAtMostOncePerIssue | server/src/api/client_server/solana_auth.rs:139-148 | in every run a nonce is accepted at most as often as it was issued |
| Nonces.AcceptanceIsBacked | server/src/api/client_server/solana_auth.rs:139-148 | each acceptance follows an issue at most 300 s earlier with nothing happening to the nonce in between |
| Nonces.UnconsumedStaysStored | server/src/api/client_server/solana_auth.rs:75-84 | a nonce issued less than 300 s ago and not consumed since is still stored |
| Nonces.AttemptDecided | server/src/api/client_server/solana_auth.rs:136-153 | a good signature succeeds within 300 s of the last issue, fails later or after a consumption, and at exactly 300 s succeeds exactly if the nonce was not pruned |
| Nonces.AttemptIsLogin | server/src/api/client_server/solana_auth.rs:139-153 | the attempt step of the runs consumes and accepts as `VerifyLogin` does with a well-formed request |
| SigningKeys.RetireDropped | server/src/database/key_value/globals.rs:303-310 | the loop retires exactly the keys the origin no longer lists, with the previous end of validity |
| SigningKeys.KeyStore.AddFromTrusted | server/src/database/key_value/globals.rs:244-284 | extends both key maps and only raises the end of validity |
| SigningKeys.KeyStore.AddFromOrigin | server/src/database/key_value/globals.rs:286-331 | takes the origin's current keys and validity and retires the dropped ones |
| SigningKeys.NothingForgotten | server/src/database/key_value/globals.rs:244-331 | either merge knows exactly the ids known before and those given |
| SigningKeys.OriginDecides | server/src/database/key_value/globals.rs:303-314 | after the origin's message exactly its keys are current, a dropped key is retired with the previous end unless the origin lists it as retired, and its retired entries replace older ones |
| SigningKeys.TrustedReplaces | server/src/database/key_value/globals.rs:262-267 | a trusted server's current or retired entry replaces the one known under its id, other entries stay, and the end of validity is the later one |
| SigningKeys.KnownIffNamed | server/src/database/key_value/globals.rs:244-331 | after every sequence of messages an id is known exactly when some message named it |
| SigningKeys.ValidityIsKept | server/src/database/key_value/globals.rs:262-267 | after the origin's last word, trusted servers never lower the end of validity or remove a current key |
| SigningKeys.RetirementIsKept | server/src/database/key_value/globals.rs:303-313 | a retired key stays retired with its end of validity until a message names it again |

## Left out

- Bytes.Utf8IsText: models the encoder only; that stored bytes decode to valid identifiers, and the grammars of user, room and device identifiers, are not modelled.
- Base58.HexToBytes: characters are Unicode scalars, not UTF-16 code units; the two differ only outside the alphabets involved.
- Watchers.NoLostUpdate: speaks of registrations that have happened; when the future of `globals.watch` is first polled is not modelled.
- Timeline.Timeline.PdusUntil: event bodies are reduced to whether they parse; the subtraction below position 0 wraps around as in a release build, where a debug build stops.
- SyncTimeline.NothingSkipped: a scan of a room is one step, as the storage engines' iterators read a snapshot; a room newly joined is reported as limited in addition, which only weakens the promise.
- SyncState.ClientAgrees: a sync is one step, lazy loading is off, state events missing from the database and rooms that fail to load are not modelled, and that a room not covered by the last sync was joined since is taken from the membership cache.
- MissingEvents.Walk: visibility is a parameter; the access-control check before the walk is not modelled.
- Sending.ParseKey: the grammars of server names and user ids are parameters, constrained only as the key layout needs.
- Sending.NothingLost: ids of stored events are taken to be distinct from counts by length; delivery, back-off and retries are not modelled.
- Nonces.NonceStore.VerifyLogin: ed25519 and the random generator are parameters; login, registration and display names beyond the localpart are not modelled.
- Search.SearchIndex.SearchPdus: words are given; splitting text into lower-case words is not modelled.
- SearchPages.PagesAreExact: the index does not change between the pages of one search.
- SearchRoute.SearchEvents: the parsing of the token, the default and maximum of the limit and the text of the results are not modelled.
- UpdateRaces.OneEntryIff: a slot and a position stand for the key they are encoded in, which AccountData.KeysInjective shows to be injective.
- SyncScans.ShownIff: a scan is one step, as the storage engines' iterators read a snapshot.
- AccountData.AccountData.Get: whether stored bytes can be read is a parameter, as it is for KeyChanges, ToDevice and Devices.
- SigningKeys.KeyStore.AddFromOrigin: stored keys that do not parse count as unknown and are not represented separately.
- Counters are required to stay below 2^64 - 1; integer overflow of the counter is not modelled.
- Device lists, presence, typing, receipts, notification counts and left, invited and knocked rooms of `/sync`.
- State resolution, event authorization, state compression and the federation handlers other than missing events.
- Media, appservices, push rules, the admin room and every handler that only passes values on.
- The Borsh strings, the Solana program and the user interface of the client.
- Failures of the storage engines, and recovery after them.
