# UbiShare peer-to-peer sync engine, modelled in Dafny

UbiShare keeps a social-data content provider (people, communities, memberships, activities,
relationships) in step across Android devices. One device runs a sync server and the others run
clients. A client announces itself with a HANDSHAKE request and receives every record. After that,
the two sides push UPDATE requests and responses carrying the records whose DIRTY flag is set. This
project models the core of that engine:

- **Handshake lock** (`lock.dfy`, module `HandshakeLock`). Two counters let any number of
  handshakes, or any number of updates, hold the lock, but never both kinds at once.
- **Peers** (`peers.dfy`, module `Peers`). The peer record, the factory that builds one from a
  connection, and the peer list with its first-match lookup by unique id.
- **Server engine** (`server.dfy`, module `SyncServer`). It covers:
  - handshake registration;
  - classifying and applying received records (`processUpdate`);
  - the fan-out of client updates and of poller batches;
  - the update-sender thread;
  - dispatching a request read from a connection.
- **Dirty-record poller** (`poller.dfy`, module `Poller`). It covers the pending filter, global-id
  assignment, one poll tick, `stopPolling` and `resetEntityDirtyFlag`.
- **Wire formats** (`framing.dfy`, `messages.dfy`, `json.dfy`):
  - the length-prefixed framing (module `LengthFraming`);
  - the older line-delimited framing (module `LineFraming`);
  - the Request/Response envelopes and their Gson type adapters, and the class-tagged entity
    envelope (module `Messages`);
  - the part of Gson's tree API the adapters touch (module `Json`).
- **Entity contract**:
  - `entity.dfy` (module `EntityBase`): cursor reads, local-id/global-id lookups, and the
    `KEY=value` line format;
  - `entity_ops.dfy` (module `EntityOps`): insert, update and delete with their `-1` sentinel
    guards, `deleteEntity`, and serialisation;
  - `records.dfy` (module `Records`): the six entity classes, with their `populate`,
    `getEntityValues`, reference fetching, `isAllGlobalIdsSet` and queries;
  - `provider.dfy` (module `Provider`): the content provider, as a map from table to rows in
    cursor order.
- **Role and session bookkeeping**:
  - `services.dfy` (module `SyncServices`): the per-connection-type registries of the server and
    client services;
  - `wifidirect.dfy` (module `WiFiDirect`): the Wi-Fi Direct role decision and error messages.
- **Supporting modules**:
  - `wrappers.dfy`: `Option`, `Result`, the exception names, and Java `int`/`long` narrowing and
    division (module `JavaInts`);
  - `utf8.dfy`: the `String.getBytes()` / `new String(bytes)` pair, taken as UTF-8;
  - `decimal.dfy`: `Long.toString` / `Long.parseLong`;
  - `seqs.dfy`: filter and subsequence.

Threads, sockets, Android and Gson are replaced by explicit inputs. Gson is two oracle records.
`JsonText` renders and parses text; `EntityCodec` is the reflective per-class adapter. Both come
with lawfulness predicates: rendered trees parse back, and an encoded entity decodes as its own
class. The UUID generator is a function `nat -> string` passed in. The clock is a millisecond
value passed in. Socket failures are `Option<Exception>` arguments. A thread that would block in
`HandshakeLock.lock` is a step that cannot be taken: the handler returns `None`. Java exceptions
are `Result.Err` values named after the Java classes.

The source files come from different snapshots, and the model follows each file's own code. Four
places where the files disagree:

- `PersonActivity` and `Relationship` call `super.populate` and `super.getEntityValues`, which
  the `Entity.java` of this snapshot does not define. The model takes them to read and write the
  DIRTY and DELETED columns, which the dirty queries and `setDirtyFlag` need.
- `RequestTypeAdapter` writes a last-request time that `Request.java` does not hold. The model
  gives `Request` that field.
- The update server's `processUpdate` calls `fetchLocalIds` on every received record, and
  `Entity.java` declares only the abstract `fetchLocalId`. `PersonActivity` and `Relationship`
  define `fetchLocalIds`, `Community` defines `fetchLocalId`, and `Person`, `Membership` and
  `CommunityActivity` define neither. The model gives every class the own-id lookup from its
  global id, as `Community.fetchLocalId` does, and adds the reference lookups of the two classes
  that have references.
- The poller and `processUpdate` call `setDirtyFlag`, `getDeletedFlag`, `fetchGlobalIds` and
  `isAllGlobalIdsSet` on every entity (service/UpdatePoller.java lines 106, 174 and 181,
  P2PSyncServer.java lines 283-288). `Entity.java` declares none of them. No entity class of
  this snapshot defines `setDirtyFlag` or `getDeletedFlag`, and only `PersonActivity` and
  `Relationship` define `fetchGlobalIds` and `isAllGlobalIdsSet`. Those two classes also declare
  `long getId()` against the abstract `int getId()`, and `CommunityActivity` defines no
  `getContentUri`. The model reads these gaps as follows:
  - every entity carries a dirty and a deleted flag, which the flag setters set and the
    server reads;
  - `Person`, `Community`, `Membership` and `CommunityActivity` store no flag column, so a
    populated one reads back clean, and the flags set on it are not written;
  - `fetchGlobalIds` leaves those four unchanged;
  - `isAllGlobalIdsSet` checks only their own global id, so Membership's member and community
    global ids are not checked;
  - `PersonActivity` and `Relationship` keep long local ids;
  - `CommunityActivity` rows live in a table of their own.

Four defects of the source are recorded under "## Findings". In each case both the code as
written and a corrected version are modelled, and they sit side by side: `SendRequest`,
`ReceiveRequest`, `HandleRequest` and `ServeConnection` are the request path as written, and
`SendRequestWithId`, `ReceiveRequestWithId`, `HandleRequestReleasing` and
`ServeConnectionReleasing` are the corrected one. `FirstHandshakeBreaksServer` follows the code
as written from a client's first handshake to the server that no longer serves anyone.

Gson builds Java references, and the model keeps their nulls: an entity collection is
`Option<seq<Option<Entity>>>`, null or a list whose elements may be null. A JSON null element,
or an envelope whose entity is null, decodes to a null element.

## Model

| member | source | states |
|---|---|---|
| HandshakeLock.TryLock | source/src/org/societies/android/p2p/HandshakeLock.java:49-63 | `lock(t)` can proceed exactly when the other kind's count is 0; it then raises t's count by exactly one and leaves the other count at 0 |
| HandshakeLock.Unlock | source/src/org/societies/android/p2p/HandshakeLock.java:69-79 | `unlock(t)` lowers a positive count of t by one. With t's count at 0 the state is unchanged, so no count goes negative. The other kind's count never changes. Waiters are notified exactly when both counts are 0 afterwards |
| HandshakeLock.LockKeepsInv | source/src/org/societies/android/p2p/HandshakeLock.java:18-23 | every acquisition keeps the invariant that the two counts are never both positive |
| HandshakeLock.UnlockKeepsInv | source/src/org/societies/android/p2p/HandshakeLock.java:69-79 | every release keeps the same mutual-exclusion invariant |
| HandshakeLock.SameKindNeverWaits | source/src/org/societies/android/p2p/HandshakeLock.java:51-60 | while a kind holds the lock, another caller of the same kind never waits |
| HandshakeLock.UnlockUndoesLock | source/src/org/societies/android/p2p/HandshakeLock.java:49-79 | releasing what was just acquired restores both counts |
| HandshakeLock.ManyHoldersOfOneKind | source/src/org/societies/android/p2p/HandshakeLock.java:18-23 | from a state with no holder of the other kind, any number n of same-kind acquisitions succeed in a row, and the count then rises by exactly n |
| HandshakeLock.UnreleasedLockExcludesOther | source/src/org/societies/android/p2p/HandshakeLock.java:51-77 | while one hold of a kind is never released, the other kind waits however many of its own releases follow |
| HandshakeLock.UnlockTimesCount | source/src/org/societies/android/p2p/HandshakeLock.java:71-74 | n releases of a kind lower its count by n, stopping at 0, and leave the other count alone |
| Peers.NewPeer | source/src/org/societies/android/p2p/Peer.java:42-47 | a new peer is active, has last-update time 0, and keeps the id, type and endpoint it was given |
| Peers.PeerFor | source/src/org/societies/android/p2p/Peer.java:122-141 | a Bluetooth connection gives a Bluetooth peer on the remote device. A Wi-Fi Direct connection gives a peer on the remote IP and WIFI_DIRECT_CLIENT_PORT. A connection class that does not match its reported type fails the cast. An unknown type throws IllegalArgumentException |
| Peers.SetActive | source/src/org/societies/android/p2p/Peer.java:104-114 | after `setActive(b)` the flag reads b and nothing else has changed |
| Peers.SetLastUpdateTime | source/src/org/societies/android/p2p/Peer.java:79-90 | after `setLastUpdateTime(t)` the time reads t and nothing else has changed |
| Peers.SetLastUpdateTimeNow | source/src/org/societies/android/p2p/Peer.java:95-97 | the stored time is the clock's milliseconds divided by 1000, narrowed to an int. It equals the whole seconds when those fit |
| Peers.Lookup | source/src/org/societies/android/p2p/PeerList.java:37-46 | reference definition of `getPeer`. It finds the first peer in list order whose id equals the argument, and reports none exactly when every peer has a different non-null id. Reaching a peer with a null id first throws NullPointerException |
| Peers.GetPeer | source/src/org/societies/android/p2p/PeerList.java:37-46 | the iterator loop with its early return computes exactly the reference lookup, on every list and id |
| Peers.AddPeer | source/src/org/societies/android/p2p/PeerList.java:26 | `add` appends at the end and keeps every earlier peer in place |
| Peers.AddAllowsDuplicates | source/src/org/societies/android/p2p/PeerList.java:26 | the list itself accepts a second peer with an id already present |
| Peers.AddAfterMissKeepsDistinct | source/src/org/societies/android/p2p/service/P2PSyncServer.java:216-220 | adding only after a lookup found nothing keeps the ids pairwise distinct |
| Peers.LookupAppend | source/src/org/societies/android/p2p/PeerList.java:37-46 | after a failed lookup and an append, the new peer alone decides the repeated lookup. A peer with a null id makes it throw |
| Peers.LookupReadsIds | source/src/org/societies/android/p2p/PeerList.java:37-46 | the lookup reads only the ids: two lists with the same ids at the same positions give the same answer, whatever their flags and times |
| Peers.UpdateAt | source/src/org/societies/android/p2p/service/P2PSyncServer.java:216-221 | changing the peer that `getPeer` returned changes that position only |
| SyncServer.Classify | source/src/org/societies/android/p2p/service/P2PSyncServer.java:285-293 | the four branches as if-and-only-ifs. A deleted record with a known id is deleted. A deleted record with id -1 is only logged. A live record with id -1 is inserted. Any other record is updated |
| SyncServer.ApplyOne | source/src/org/societies/android/p2p/service/P2PSyncServer.java:281-294 | the record's local id is resolved from its global id and its dirty flag is cleared. Then: a rejected delete leaves the store unchanged; a delete leaves no row with that id; an insert appends one row holding the record's values; an update keeps the row count and clears the row's DIRTY cell. Other tables are untouched |
| SyncServer.ProcessUpdate | source/src/org/societies/android/p2p/service/P2PSyncServer.java:278-295 | each record in turn, in the store the previous ones left. Every record keeps its class and global id, and its flags become (0, deleted). Tables that no record belongs to are unchanged. Its partner on storage is ReceivedLiveRecordStored |
| SyncServer.ReceivedTwiceStoredOnce | source/src/org/societies/android/p2p/service/P2PSyncServer.java:281-294 | a new live record received twice is inserted once and then updated, so its table grows by exactly one row |
| SyncServer.ReceivedLiveRecordStored | source/src/org/societies/android/p2p/service/P2PSyncServer.java:273-295 | the loop inserts the received records into the database. After the whole batch, every live record of a class that stores values, with a global id, resolves to a local id in its table, unless a later record of the batch deletes that global id. This needs unique positive row ids with room for one int id per record |
| SyncServer.ApplyOneStores | source/src/org/societies/android/p2p/service/P2PSyncServer.java:290-293 | after its own pass, a live record with a global id is in its table, whether it was inserted or written over its row |
| SyncServer.ApplyOneKeepsInTable | source/src/org/societies/android/p2p/service/P2PSyncServer.java:285-293 | a pass over another record keeps a stored global id stored unless that record deletes it. A delete or update reaches only the row its own global id resolves to, and an insert appends |
| SyncServer.Register | source/src/org/societies/android/p2p/service/P2PSyncServer.java:216-221 | an unknown sender id adds exactly one peer at the end, a known id reuses its peer, and the peer is then active. It fails exactly when the lookup throws, or when the peer factory fails for an unknown sender |
| SyncServer.HandleHandshake | source/src/org/societies/android/p2p/service/P2PSyncServer.java:211-228 | as written. It waits exactly while updates hold the lock and leaves the store alone. On success the reply frame carries every record and the lock is back as before. On any failure one HANDSHAKE hold stays |
| SyncServer.HandleHandshakeReleasing | source/src/org/societies/android/p2p/service/P2PSyncServer.java:211-228 | corrected. The same outcome as the code as written, with the lock given back on every path |
| SyncServer.HandshakeReplyReadsBack | source/src/org/societies/android/p2p/service/P2PSyncServer.java:225-239 | a client reading the bytes a successful handshake wrote receives exactly the list of all records |
| SyncServer.FailedHandshakeBlocksUpdates | source/src/org/societies/android/p2p/service/P2PSyncServer.java:214-227 | as written, after a failed handshake an update still waits even when every earlier handshake hold has been released |
| SyncServer.DisconnectedHandshakeLeaksLock | source/src/org/societies/android/p2p/service/P2PSyncServer.java:211-228 | concrete input: on an idle server, a handshake whose reply write raises IOException leaves the lock at one handshake hold, and an update cannot proceed |
| SyncServer.ReleasingHandshakeFreesUpdates | source/src/org/societies/android/p2p/service/P2PSyncServer.java:211-228 | with the release in place, updates proceed once the handshakes already in progress release |
| SyncServer.AnonymousPeerLocksOutNewcomers | source/src/org/societies/android/p2p/service/P2PSyncServer.java:216-220 | once a handshake without an id has registered a peer, the lookup of any id not already listed throws, so no new client can register |
| SyncServer.UpdateTargets | source/src/org/societies/android/p2p/service/P2PSyncServer.java:259-268 | the loop targets exactly the active peers whose id differs from the request's, in list order, up to the first active peer with a null id. That peer ends the loop with NullPointerException |
| SyncServer.ActiveTargets | source/src/org/societies/android/p2p/service/P2PSyncServer.java:109-114 | the batch loop targets exactly the active peers, in list order, with no exclusion |
| SyncServer.AnonymousUpdateEchoesToSender | source/src/org/societies/android/p2p/service/P2PSyncServer.java:259-268 | a request without an id excludes nobody: the update goes back to every active peer, its own sender included |
| SyncServer.HandleClientUpdates | source/src/org/societies/android/p2p/service/P2PSyncServer.java:248-271 | as written. A null collection throws NullPointerException at once, before the lock. Otherwise it waits exactly while handshakes hold the lock. It processes the records before the first null element; a null element then throws, with no sender started. Without nulls it starts a sender with the processed records for each target, and only for targets. It succeeds exactly when the collection holds no null and no active peer has a null id. After a failure under the lock one UPDATE hold stays |
| SyncServer.FanOut | source/src/org/societies/android/p2p/service/P2PSyncServer.java:256-270 | one sender with the processed records for each target and only for targets. It releases the UPDATE hold exactly when no active peer has a null id, and otherwise keeps it and throws NullPointerException |
| SyncServer.HandleClientUpdatesReleasing | source/src/org/societies/android/p2p/service/P2PSyncServer.java:248-271 | corrected. The same outcome as the code as written, with the lock given back on every path that took it |
| SyncServer.AnonymousPeerLeaksUpdateLock | source/src/org/societies/android/p2p/service/P2PSyncServer.java:259-270 | concrete input: on an idle server with one active peer without an id, an update whose collection is not null throws NullPointerException and a handshake can no longer proceed |
| SyncServer.NullRecordLeaksUpdateLock | source/src/org/societies/android/p2p/service/P2PSyncServer.java:251-282 | on an idle server, an update whose list holds a null stores the records before it, starts no sender, throws NullPointerException and leaves handshakes waiting |
| SyncServer.FailedUpdateBlocksHandshakes | source/src/org/societies/android/p2p/service/P2PSyncServer.java:251-270 | as written, after an update fails under the lock a handshake still waits even when every earlier update hold has been released |
| SyncServer.OnEntitiesAvailable | source/src/org/societies/android/p2p/service/P2PSyncServer.java:105-117 | starts one sender with the batch for each active peer and none for the others, without touching the lock or the peers. Then the batch's dirty flags are reset, whatever the senders do: the batch leaves the pending list and its DIRTY cells are cleared. This fails exactly when a record has id -1 |
| SyncServer.RunSender | source/src/org/societies/android/p2p/service/P2PSyncServer.java:319-348 | as written. It waits exactly while handshakes hold the lock. It succeeds exactly when the connect and the send both succeed; the response frame is then written, the peer's time is stamped from the clock, and the lock is released. An I/O failure or timeout marks the peer inactive, and any other failure changes no peer. On every failure the peer stays in the list and one UPDATE hold stays |
| SyncServer.RunSenderReleasing | source/src/org/societies/android/p2p/service/P2PSyncServer.java:319-348 | corrected. The same outcome as the code as written, with the lock given back on every path |
| SyncServer.FailedSenderBlocksHandshakes | source/src/org/societies/android/p2p/service/P2PSyncServer.java:323-336 | as written, after a failed send a handshake still waits even when every earlier update hold has been released |
| SyncServer.UnreachablePeerLeaksLock | source/src/org/societies/android/p2p/service/P2PSyncServer.java:319-348 | concrete input: on an idle server, a connect that times out marks the peer inactive and leaves handshakes waiting for good |
| SyncServer.ReleasingSenderFreesHandshakes | source/src/org/societies/android/p2p/service/P2PSyncServer.java:319-348 | with the release in place, handshakes proceed once the updates already in progress release |
| SyncServer.HandleRequest | source/src/org/societies/android/p2p/service/P2PSyncServer.java:179-196 | as written. A handshake goes to `handleHandshake` and an update to `handleClientUpdates`. A request of no known type is only logged and changes nothing, and a null request throws. Only a failed handler changes the lock: a failed handshake leaves one HANDSHAKE hold and a failed update under the lock one UPDATE hold |
| SyncServer.ServeConnection | source/src/org/societies/android/p2p/service/P2PSyncServer.java:176-201 | as written. A request that cannot be read ends the handler with that exception and nothing changed. A handler that succeeds leaves the lock as it found it |
| SyncServer.SentRequestIsHandled | source/src/org/societies/android/p2p/service/P2PSyncServer.java:179-190 | as written, a request a client framed is dispatched on the rest of the stream with its type, time and entities but without its unique id |
| SyncServer.FirstHandshakeBreaksServer | source/src/org/societies/android/p2p/service/P2PSyncServer.java:176-271 | as written, end to end: the first client to send a handshake to an idle server with no peers is registered without an id although it sent one. Afterwards the lookup of any other id throws, and an update whose collection is not null fails with NullPointerException and leaves handshakes waiting for good |
| SyncServer.AnonymousHandshakeOnEmptyList | source/src/org/societies/android/p2p/service/P2PSyncServer.java:211-228 | on an idle server with no peers, a handshake without an id that can be answered succeeds, gives the lock back and leaves exactly the list that registration builds |
| SyncServer.HandleRequestReleasing | source/src/org/societies/android/p2p/service/P2PSyncServer.java:179-196 | corrected dispatch to the releasing handlers. A request of no known type changes nothing, a null request throws, and every outcome leaves the lock as it found it |
| SyncServer.ServeConnectionReleasing | source/src/org/societies/android/p2p/service/P2PSyncServer.java:176-201 | corrected: the request is read with its unique id and handled by the releasing handlers, so serving a connection never changes the lock. A request that cannot be read ends the handler with that exception |
| SyncServer.SentRequestWithIdIsHandled | source/src/org/societies/android/p2p/service/P2PSyncServer.java:179-190 | corrected: a request a client framed arrives whole, with its id, and is dispatched on the rest of the stream |
| Poller.RemovePendingEntities | source/src/org/societies/android/p2p/service/UpdatePoller.java:142-163 | keeps, in order, exactly the records for which no pending record has the same class and local id |
| Poller.ScanPending | source/src/org/societies/android/p2p/service/UpdatePoller.java:146-156 | the inner scan finds a match exactly when a pending record has the same class and local id |
| Poller.ProcessOne | source/src/org/societies/android/p2p/service/UpdatePoller.java:173-179 | the references' global ids are fetched. A record without a valid global id gets the UUID and is written back. That write fails with IllegalStateException exactly when the record also has id -1. Class, local id and reference local ids are kept |
| Poller.AssignGlobalIds | source/src/org/societies/android/p2p/service/UpdatePoller.java:173-179 | the loop fails exactly when some record has neither a valid global id nor a local id. Each processed record keeps a valid global id and otherwise takes the UUID of its position. With every global id valid, the store is untouched |
| Poller.ProcessGlobalIds | source/src/org/societies/android/p2p/service/UpdatePoller.java:170-188 | returns, in order, exactly the processed records for which `isAllGlobalIdsSet` holds. The rest are dropped |
| Poller.UnreferencingRecordsKept | source/src/org/societies/android/p2p/service/UpdatePoller.java:176-182 | a record that references nobody is never dropped when the generator yields non-empty ids |
| Poller.AssignedKeys | source/src/org/societies/android/p2p/service/UpdatePoller.java:173-179 | processing never introduces a class and local id that was not in its input |
| Poller.NewPoller | source/src/org/societies/android/p2p/service/UpdatePoller.java:60-66 | a new poller has an empty pending list and is not stopping |
| Poller.PollOnce | source/src/org/societies/android/p2p/service/UpdatePoller.java:69-94 | a stopped poller does nothing. A non-empty batch is appended to the pending list before it is announced. An empty batch announces nothing and leaves the pending list unchanged. Every announced record has all its global ids set |
| Poller.PendingNotReannounced | source/src/org/societies/android/p2p/service/UpdatePoller.java:126-163 | no record announced by a tick has the class and local id of a record already pending |
| Poller.UnseenNotPending | source/src/org/societies/android/p2p/service/UpdatePoller.java:142-163 | the records that pass the pending filter carry no pending class and local id |
| Poller.PendingNeverReannounced | source/src/org/societies/android/p2p/service/UpdatePoller.java:73-85 | across any number of ticks without an acknowledgement, a pending record stays pending and is announced by none |
| Poller.StopPolling | source/src/org/societies/android/p2p/service/UpdatePoller.java:114-119 | sets the stopping flag and interrupts the thread. The thread's state is not an input, because the `if` guards an empty statement. The pending list is kept |
| Poller.StoppedPollerIsSilent | source/src/org/societies/android/p2p/service/UpdatePoller.java:73-85 | after `stopPolling` no tick announces anything |
| Poller.UpdateClears | source/src/org/societies/android/p2p/service/UpdatePoller.java:105-108 | writing back a clean record of a table with a DIRTY column leaves every row with its id clean |
| Poller.UpdateKeepsCleared | source/src/org/societies/android/p2p/service/UpdatePoller.java:105-108 | writing back a clean record never dirties a clean row |
| Poller.ClearDirty | source/src/org/societies/android/p2p/service/UpdatePoller.java:105-108 | the reset loop fails with IllegalStateException exactly when a record has id -1 |
| Poller.ClearDirtyKeeps | source/src/org/societies/android/p2p/service/UpdatePoller.java:105-108 | the reset loop never dirties a clean row |
| Poller.ClearDirtyClears | source/src/org/societies/android/p2p/service/UpdatePoller.java:105-108 | when the reset loop succeeds, every acknowledged record of a table with a DIRTY column ends with all its rows clean |
| Poller.ResetEntityDirtyFlag | source/src/org/societies/android/p2p/service/UpdatePoller.java:100-109 | the pending list keeps, in order, exactly its elements that are not equal to an acknowledged record. The reset fails exactly when a record has id -1, and that failure ends the poller thread |
| Poller.AcknowledgedNoLongerPending | source/src/org/societies/android/p2p/service/UpdatePoller.java:101-103 | an acknowledged record leaves the pending list, so later ticks may announce it again |
| LengthFraming.IntBytes | source/src/org/societies/android/p2p/net/P2PConnection.java:137 | `writeInt` emits exactly four bytes |
| LengthFraming.ReadInt | source/src/org/societies/android/p2p/net/P2PConnection.java:119 | `readInt` fails with EOFException exactly when fewer than four bytes remain, and otherwise consumes exactly four and yields an int |
| LengthFraming.ReadIntBytes | source/src/org/societies/android/p2p/net/P2PConnection.java:119-137 | `readInt` reads back what `writeInt` wrote, big-endian two's complement |
| LengthFraming.Frame | source/src/org/societies/android/p2p/net/P2PConnection.java:132-140 | a frame is the 4-byte length followed by exactly the payload's bytes |
| LengthFraming.NewConn | source/src/org/societies/android/p2p/net/P2PConnection.java:64-66 | a new connection is not initialised |
| LengthFraming.SetInputStream | source/src/org/societies/android/p2p/net/P2PConnection.java:74-78 | sets the reader. The connection is then initialised exactly when the writer is also set |
| LengthFraming.SetOutputStream | source/src/org/societies/android/p2p/net/P2PConnection.java:86-98 | sets the writer. The connection is then initialised exactly when the reader is also set |
| LengthFraming.Write | source/src/org/societies/android/p2p/net/P2PConnection.java:132-140 | on an initialised connection, appends the frame of the payload. Otherwise it throws IllegalStateException |
| LengthFraming.ReadString | source/src/org/societies/android/p2p/net/P2PConnection.java:116-125 | an uninitialised connection throws IllegalStateException, and fewer than four bytes left throw EOFException. A successful read consumes at least the 4-byte length and leaves the writer alone |
| LengthFraming.FrameRoundTrip | source/src/org/societies/android/p2p/net/P2PConnection.java:116-140 | reading a frame written from s yields s and leaves exactly the bytes after it |
| LengthFraming.WriteStringsFrames | source/src/org/societies/android/p2p/net/P2PConnection.java:132-140 | consecutive writes lay their frames end to end |
| LengthFraming.ConsecutiveFrames | source/src/org/societies/android/p2p/net/P2PConnection.java:116-125 | consecutive frames decode in order, one string per read |
| LengthFraming.Close | source/src/org/societies/android/p2p/net/P2PConnection.java:190-209 | clears the flag and both streams whatever happens. It attempts both closes and rethrows the last failure |
| LengthFraming.ClosedConnectionRefuses | source/src/org/societies/android/p2p/net/P2PConnection.java:105-108 | after `close`, reading and writing both throw IllegalStateException |
| LengthFraming.SendRequest | source/src/org/societies/android/p2p/net/P2PConnection.java:173-175 | as written, sending a request is writing the adapter's serialisation, which has no unique id, as one frame. An untyped request throws NullPointerException before anything is written |
| LengthFraming.ReceiveRequest | source/src/org/societies/android/p2p/net/P2PConnection.java:149-153 | as written. An uninitialised connection throws IllegalStateException before anything is read. A successful read leaves the writer alone, and a request read has no unique id |
| LengthFraming.SendRequestWithId | source/src/org/societies/android/p2p/net/P2PConnection.java:173-175 | corrected: the frame holds the serialisation with the unique id. An untyped request throws NullPointerException |
| LengthFraming.ReceiveRequestWithId | source/src/org/societies/android/p2p/net/P2PConnection.java:149-153 | corrected reading. An uninitialised connection throws IllegalStateException, and a successful read leaves the writer alone |
| LengthFraming.SendResponse | source/src/org/societies/android/p2p/net/P2PConnection.java:182-184 | sending a response is writing its serialisation as one frame |
| LengthFraming.ReceiveResponse | source/src/org/societies/android/p2p/net/P2PConnection.java:162-166 | an uninitialised connection throws IllegalStateException before anything is read. Its content is stated by `ResponseOverFrame` |
| LengthFraming.RequestOverFrame | source/src/org/societies/android/p2p/net/P2PConnection.java:149-175 | as written, a request sent on one connection is received by a connection reading those bytes with its type, time and entities, but without its unique id |
| LengthFraming.RequestWithIdOverFrame | source/src/org/societies/android/p2p/net/P2PConnection.java:149-175 | corrected: a request sent on one connection is received whole, id included |
| LengthFraming.ResponseOverFrame | source/src/org/societies/android/p2p/net/P2PConnection.java:162-184 | a response sent on one connection is received whole by a connection reading those bytes |
| LineFraming.ReadLine | source/src/org/societies/android/p2p/P2PConnection.java:93 | `readLine` is null exactly at the end of the stream. A line never holds a terminator, and every call consumes input. Text with no terminator is one whole line |
| LineFraming.LinesOfJoined | source/src/org/societies/android/p2p/P2PConnection.java:93-94 | lines without terminators, each followed by NEW_LINE, read back line by line |
| LineFraming.Opened | source/src/org/societies/android/p2p/P2PConnection.java:68-70 | a connection whose subclass set both streams is initialised, and nothing has been written yet |
| LineFraming.Write | source/src/org/societies/android/p2p/P2PConnection.java:104-111 | appends the payload and one line separator. An uninitialised connection throws IllegalStateException |
| LineFraming.ReadToEnd | source/src/org/societies/android/p2p/P2PConnection.java:86-97 | every line up to the end of the stream, each followed by NEW_LINE, concatenated. An uninitialised connection throws IllegalStateException |
| LineFraming.WriteThenReadToEnd | source/src/org/societies/android/p2p/P2PConnection.java:93-109 | a payload without terminators, written once and read to the end, comes back with exactly one NEW_LINE appended |
| LineFraming.Close | source/src/org/societies/android/p2p/P2PConnection.java:165-180 | closes both streams that are set and rethrows the last failure. It keeps the initialised flag and the stream references |
| LineFraming.ClosedConnectionStillInitialized | source/src/org/societies/android/p2p/P2PConnection.java:165-180 | since `close` keeps the flag, a closed connection still counts as initialised, and reads and writes fail with IOException from the closed stream |
| LineFraming.WriteRequest | source/src/org/societies/android/p2p/P2PConnection.java:148-150 | writing a request is writing the adapter's serialisation, which has no unique id, as one line. An untyped request throws |
| LineFraming.ReadRequest | source/src/org/societies/android/p2p/P2PConnection.java:120-126 | an uninitialised connection throws IllegalStateException, and a request read has no unique id |
| LineFraming.RequestOverLine | source/src/org/societies/android/p2p/P2PConnection.java:104-126 | a request written as one line and read to the end of the stream arrives with its type, time and entities, but without its unique id |
| Json.AsObject | source/src/org/societies/android/p2p/entity/RequestTypeAdapter.java:77 | `getAsJsonObject` yields the members of an object, and any other element throws IllegalStateException |
| Json.PrimitiveMember | source/src/org/societies/android/p2p/entity/RequestTypeAdapter.java:79-81 | the cast member is null exactly when absent. A non-primitive member fails the cast with ClassCastException |
| Json.GetAsString | source/src/org/societies/android/p2p/entity/RequestTypeAdapter.java:90-93 | `getAsString` on a null reference throws NullPointerException, and a string primitive is itself |
| Json.GetAsLong | source/src/org/societies/android/p2p/entity/RequestTypeAdapter.java:94 | `getAsLong` always yields a long. A null reference throws NullPointerException and a boolean throws NumberFormatException |
| Messages.ClassForName | source/src/org/societies/android/platform/entity/EntityTypeAdapter.java:54-59 | resolves a name to the entity class with exactly that canonical name, and to none when no class has it |
| Messages.EncodeEntity | source/src/org/societies/android/platform/entity/EntityTypeAdapter.java:68-79 | an object with exactly "class_name" and "entity". The name is the entity's canonical class name and the entity is its own serialisation |
| Messages.DecodeEntity | source/src/org/societies/android/platform/entity/EntityTypeAdapter.java:44-62 | a non-object throws IllegalStateException. A missing class name throws NullPointerException. An unknown class throws JsonParseException. A decoded entity belongs to the named class |
| Messages.EntityRoundTrip | source/src/org/societies/android/platform/entity/EntityTypeAdapter.java:44-79 | decoding an encoded entity gives the same entity, hence one of the same class |
| Messages.DecodeItems | source/src/org/societies/android/p2p/entity/RequestTypeAdapter.java:89-90 | the elements decode in order: the collection decodes exactly when every element does, with one reference per element, each the decoding of its element. A failure is the failure of some element |
| Messages.DecodeItem | source/src/org/societies/android/p2p/entity/RequestTypeAdapter.java:89-90 | a JSON null element is a null reference, and any other element goes to the envelope adapter |
| Messages.EncodeItem | source/src/org/societies/android/p2p/entity/RequestTypeAdapter.java:60-61 | a null reference is written as JSON null, and only a null one |
| Messages.EncodeEntities | source/src/org/societies/android/p2p/entity/ResponseTypeAdapter.java:55-58 | the collection's text is JSON null exactly for a null collection. Otherwise it parses as an array with one element per reference, and an element is JSON null exactly when its reference is null. Its partner is EntitiesRoundTrip |
| Messages.ListOf | source/src/org/societies/android/p2p/service/P2PSyncServer.java:256-257 | a collection the engine builds from records is a non-null list of exactly those records, none null |
| Messages.BeforeFirstNull | source/src/org/societies/android/p2p/service/P2PSyncServer.java:281-282 | the records a loop over a list reaches before it dereferences a null: a prefix of the list, followed by a null when it is shorter |
| Messages.BeforeFirstNullWhole | source/src/org/societies/android/p2p/service/P2PSyncServer.java:281-282 | a non-null list holds no null exactly when the loop reaches its end, and a list of records is reached whole |
| Messages.DecodeEntities | source/src/org/societies/android/p2p/entity/ResponseTypeAdapter.java:82-83 | unparsable text fails, JSON null gives a null collection, any element but an array is a syntax error, and an array gives the decoding of its elements. An element that is not an object fails the collection with JsonSyntaxException, and no IllegalStateException escapes |
| Messages.DecodeEncodedItems | source/src/org/societies/android/p2p/entity/ResponseTypeAdapter.java:57-83 | the encoded elements of a list decode to the same references, nulls included, in order |
| Messages.EntitiesRoundTrip | source/src/org/societies/android/p2p/entity/ResponseTypeAdapter.java:57-83 | a collection's text decodes to the same collection: null stays null, and a list comes back with the same entities and nulls in the same order |
| Messages.ValueOf | source/src/org/societies/android/p2p/entity/RequestTypeAdapter.java:93 | `valueOf` yields the constant with exactly that name. Any other name throws IllegalArgumentException |
| Messages.ValueOfName | source/src/org/societies/android/p2p/entity/RequestTypeAdapter.java:64-93 | `valueOf` inverts `name()` |
| Messages.NewRequest | source/src/org/societies/android/p2p/entity/Request.java:47-52 | a new request has no id, no type and an empty, non-null entity list |
| Messages.MakeRequest | source/src/org/societies/android/p2p/entity/Request.java:59-62 | sets the id and the type and leaves the entity list empty |
| Messages.EncodeRequest | source/src/org/societies/android/p2p/entity/RequestTypeAdapter.java:52-69 | exactly the properties "type", "last_request" and "updated_entities". Type is the enum name, the time is a number, and the entities are the collection's text. The unique id is not written. An untyped request throws NullPointerException |
| Messages.DecodeRequest | source/src/org/societies/android/p2p/entity/RequestTypeAdapter.java:74-98 | a non-object throws. A missing "updated_entities" throws NullPointerException. A decoded request has no unique id, a type whose name is the "type" text, a long time, and the decoding of the "updated_entities" text as its collection, null included |
| Messages.SerializeRequest | source/src/org/societies/android/p2p/entity/Request.java:68-74 | serialisation succeeds exactly for a typed request |
| Messages.DeserializeRequest | source/src/org/societies/android/p2p/entity/Request.java:81-87 | unparsable text fails, JSON null gives a null request, anything else but an object is a JsonSyntaxException, no IllegalStateException escapes, and a request read never has a unique id |
| Messages.RequestRoundTripDropsUniqueId | source/src/org/societies/android/p2p/entity/RequestTypeAdapter.java:52-98 | as written, the round trip preserves type, time and entities but always loses the unique id, so a request with an id never comes back equal |
| Messages.EncodeRequestWithId | source/src/org/societies/android/p2p/entity/RequestTypeAdapter.java:52-69 | corrected encoding. The adapter's three properties plus "unique_id" |
| Messages.DecodeRequestWithId | source/src/org/societies/android/p2p/entity/RequestTypeAdapter.java:74-98 | corrected decoding. It fails wherever the adapter's decoding fails, and otherwise agrees with it except for the id |
| Messages.SerializeRequestWithId | source/src/org/societies/android/p2p/entity/Request.java:68-74 | corrected serialisation. It succeeds exactly for a typed request |
| Messages.DeserializeRequestWithId | source/src/org/societies/android/p2p/entity/Request.java:81-87 | corrected deserialisation. Unparsable text fails, JSON null gives a null request, anything else but an object is a JsonSyntaxException, and no IllegalStateException escapes |
| Messages.NonObjectIsSyntaxError | source/src/org/societies/android/p2p/entity/RequestTypeAdapter.java:77-89 | the text `[]` read as a request, as a request with its unique id, or as a response, and `[[]]` read as an entity collection, each fail with JsonSyntaxException |
| Messages.RequestWithIdRoundTrip | source/src/org/societies/android/p2p/entity/RequestTypeAdapter.java:52-98 | corrected. Every typed request with a long time survives the round trip whole, id included |
| Messages.NewResponse | source/src/org/societies/android/p2p/entity/Response.java:33 | a new response has an empty, non-null entity list |
| Messages.EncodeResponse | source/src/org/societies/android/p2p/entity/ResponseTypeAdapter.java:49-64 | exactly one property, "entities", a string holding the collection's text |
| Messages.SerializeResponse | source/src/org/societies/android/p2p/entity/Response.java:39-45 | the text parses back to an object with exactly the "entities" property, which holds the collection's text. Its partner is ResponseRoundTrip |
| Messages.DecodeResponse | source/src/org/societies/android/p2p/entity/ResponseTypeAdapter.java:69-89 | a non-object throws, and a missing "entities" throws NullPointerException. The response's collection is the decoding of that string, null included |
| Messages.DeserializeResponse | source/src/org/societies/android/p2p/entity/Response.java:52-58 | unparsable text fails, JSON null gives a null response, anything else but an object is a JsonSyntaxException, and no IllegalStateException escapes |
| Messages.ResponseRoundTrip | source/src/org/societies/android/p2p/entity/Response.java:39-58 | a response's text deserialises to the same entity collection, whole and in order |
| Provider.TextCell | source/src/org/societies/android/platform/entity/Person.java:67-72 | a string field is stored as SQL NULL exactly when it is null |
| Provider.Query | source/src/org/societies/android/platform/entity/Entity.java:91 | a query returns exactly the selected rows of the table, in table order |
| Provider.InsertRow | source/src/org/societies/android/platform/entity/Entity.java:259 | the insert appends one row under a positive id no existing row has. The id column is never written. Other tables are untouched |
| Provider.UpdateRows | source/src/org/societies/android/platform/entity/Entity.java:272-274 | the update overwrites the given columns of the rows with that id and returns how many there were. Every other row and table is untouched |
| Provider.DeleteRows | source/src/org/societies/android/platform/entity/Entity.java:288-290 | the delete removes exactly the rows with that id and returns how many there were. Every other row stays. Other tables are untouched |
| Provider.InsertKeepsWellKeyed | source/src/org/societies/android/platform/entity/Entity.java:257-262 | insertion keeps row ids unique |
| Provider.UpdateKeepsWellKeyed | source/src/org/societies/android/platform/entity/Entity.java:270-278 | update keeps row ids unique |
| Provider.DeleteKeepsWellKeyed | source/src/org/societies/android/platform/entity/Entity.java:286-294 | deletion keeps row ids unique |
| EntityBase.GetString | source/src/org/societies/android/platform/entity/Entity.java:192-195 | a missing column throws IllegalArgumentException. SQL NULL reads as null and text as itself |
| EntityBase.GetLong | source/src/org/societies/android/platform/entity/Entity.java:228-231 | a missing column throws IllegalArgumentException. A stored long reads as itself |
| EntityBase.GetInt | source/src/org/societies/android/platform/entity/Entity.java:204-207 | a missing column throws IllegalArgumentException. The value is narrowed to an int, and a stored int reads as itself |
| EntityBase.GetBoolean | source/src/org/societies/android/platform/entity/Entity.java:216-219 | true exactly when the column's int reads as 1 |
| EntityBase.GetLocalId | source/src/org/societies/android/platform/entity/Entity.java:121-148 | the id of the first row whose global id matches, narrowed to an int. It is -1 when no row matches |
| EntityBase.GetGlobalId | source/src/org/societies/android/platform/entity/Entity.java:160-183 | the global id of the first row with that local id. It is null when there is no such row, or when its column is missing or NULL |
| EntityBase.GlobalIdOfLocalId | source/src/org/societies/android/platform/entity/Entity.java:121-183 | the local id of a stored global id maps back to that global id |
| EntityBase.LocalIdOfGlobalId | source/src/org/societies/android/platform/entity/Entity.java:121-183 | the global id of a row maps back to that row's id when no other row carries it |
| EntityBase.FormatLine | source/src/org/societies/android/platform/entity/Entity.java:40 | one `%s=%s\n` line: the key, `=`, the printed value, a newline |
| EntityBase.PrintedFields | source/src/org/societies/android/platform/entity/Entity.java:40 | each field's key beside its printed value, with null printed as `null` |
| EntityBase.ParseRenderLines | source/src/org/societies/android/platform/entity/Entity.java:40 | rendered lines parse back to every key and printed value, in order, when no key holds `=` or a newline and no value a newline |
| EntityBase.NullPrintsAsNullString | source/src/org/societies/android/platform/entity/Entity.java:40 | the line format cannot tell a null field from the string "null" |
| EntityOps.WithId | source/src/org/societies/android/platform/entity/Person.java:101-103 | `setId` changes the local id only |
| EntityOps.WithGlobalId | source/src/org/societies/android/platform/entity/Person.java:109-111 | `setGlobalId` changes the global id only |
| EntityOps.WithFlags | source/src/org/societies/android/p2p/service/P2PSyncServer.java:283 | the flag setters change the flags only |
| EntityOps.WithDirty | source/src/org/societies/android/p2p/service/UpdatePoller.java:106 | `setDirtyFlag(d)` sets the dirty flag and keeps the deleted flag |
| EntityOps.ProviderValues | source/src/org/societies/android/platform/entity/CommunityActivity.java:63-67 | the values handed to the provider never include the id. CommunityActivity's null is taken as no values |
| EntityOps.Insert | source/src/org/societies/android/platform/entity/Entity.java:257-262 | allowed exactly when the local id is -1, and otherwise throws IllegalStateException with the store unchanged. It appends one row with the entity's values under a fresh id |
| EntityOps.Update | source/src/org/societies/android/platform/entity/Entity.java:270-278 | allowed exactly when the local id is not -1, and otherwise throws IllegalStateException. It overwrites the row with that id with the entity's values and leaves every other row |
| EntityOps.Delete | source/src/org/societies/android/platform/entity/Entity.java:286-294 | allowed exactly when the local id is not -1, and otherwise throws IllegalStateException. It removes the rows with that id and no others |
| EntityOps.DeleteEntity | source/src/org/societies/android/platform/entity/Entity.java:51-66 | a global id that resolves to no row deletes nothing and counts 0. Otherwise it deletes the resolved row and returns the provider's count |
| EntityOps.InsertThenDelete | source/src/org/societies/android/platform/entity/Entity.java:257-294 | deleting under the id an insertion returned removes exactly that row and restores every table |
| EntityOps.InsertReadsBack | source/src/org/societies/android/platform/entity/Entity.java:257-262 | the inserted row populates back to the entity under its new id |
| EntityOps.DeleteEntityRemovesGlobalId | source/src/org/societies/android/platform/entity/Entity.java:51-66 | with unique global ids, `deleteEntity` of a stored global id removes a row, and the global id then no longer resolves |
| EntityOps.NamedFields | source/src/org/societies/android/platform/entity/Person.java:83-94 | each serialised field is written under its column's contract name |
| EntityOps.Deserialize | source/src/org/societies/android/platform/entity/Entity.java:325-336 | null when the text does not parse. A result is an instance of the requested class |
| EntityOps.SerializeIgnoresLocalId | source/src/org/societies/android/platform/entity/Entity.java:301-316 | the serialised text never depends on the local id |
| EntityOps.Serialize | source/src/org/societies/android/platform/entity/Entity.java:301-316 | Person, Membership and CommunityActivity write their own fields as `KEY=value` lines. The text of any other class parses back to the Gson tree of the entity under id -1. Its partners are SerializeRoundTrip, SerializeLinesParse and SerializeIgnoresLocalId |
| EntityOps.SerializeRoundTrip | source/src/org/societies/android/platform/entity/Entity.java:301-336 | for the classes serialised by Gson, deserialising the text as the entity's class gives the entity back under id -1 |
| EntityOps.SerializeLinesParse | source/src/org/societies/android/platform/entity/Person.java:83-94 | for the classes with their own `serialize`, the text splits back into exactly their fields, in order |
| Records.NewInstance | source/src/org/societies/android/platform/entity/CommunityActivity.java:32 | a new entity has no global id and clean flags. Its local id is -1, except CommunityActivity's, which has no initialiser and is 0. The long-id classes stamp both dates with the clock in seconds |
| Records.FlagOf | source/src/org/societies/android/platform/entity/PersonActivity.java:99 | a flag column read as an int. An int-sized stored value reads as itself |
| Records.Populate | source/src/org/societies/android/platform/entity/Person.java:52-61 | `populate` succeeds exactly when every column the class reads is present, and otherwise throws IllegalArgumentException. The entity carries the row's global id and the row id narrowed to the class's id type |
| Records.EntityValues | source/src/org/societies/android/platform/entity/CommunityActivity.java:63-67 | null exactly for CommunityActivity. Otherwise it never holds the id, and holds the global id as text |
| Records.EntityValuesKeys | source/src/org/societies/android/platform/entity/Person.java:63-75 | each class writes exactly its own columns: Person six, Community seven, Membership four without the dates, and the two long-id classes their fields plus the flags |
| Records.PopulateReadsValues | source/src/org/societies/android/platform/entity/Person.java:52-75 | a row holding an entity's values populates back to that entity, up to the fields the class does not store |
| Records.PersonReadsValues | source/src/org/societies/android/platform/entity/Person.java:52-75 | Person's `populate` reads back what its `getEntityValues` wrote |
| Records.CommunityReadsValues | source/src/org/societies/android/platform/entity/Community.java:62-87 | Community's `populate` reads back what its `getEntityValues` wrote |
| Records.MembershipReadsValues | source/src/org/societies/android/platform/entity/Membership.java:53-76 | Membership's `populate` reads back what it wrote, with the dates, which neither side touches, left null |
| Records.PersonActivityReadsValues | source/src/org/societies/android/platform/entity/PersonActivity.java:97-126 | PersonActivity's `populate` reads back what it wrote, with the feed owner's global id left null |
| Records.RelationshipReadsValues | source/src/org/societies/android/platform/entity/Relationship.java:96-121 | Relationship's `populate` reads back what it wrote, with the people's global ids left null |
| Records.FetchLocalIds | source/src/org/societies/android/platform/entity/Relationship.java:144-159 | the own id is looked up from the own global id, and each reference's local id from its global id among the people, with -1 when absent. Nothing else changes |
| Records.FetchGlobalIds | source/src/org/societies/android/platform/entity/Relationship.java:128-142 | each reference's global id is looked up from its local id among the people, with null when absent. Nothing else changes |
| Records.IsAllGlobalIdsSet | source/src/org/societies/android/platform/entity/PersonActivity.java:239-243 | true exactly when the own global id and every referenced global id are valid |
| Records.GlobalIdsSurviveFetch | source/src/org/societies/android/platform/entity/Relationship.java:128-159 | resolving references to local ids and back restores their global ids when each names a stored person |
| Records.GlobalIdSurvives | source/src/org/societies/android/platform/entity/PersonActivity.java:133-153 | one reference's global id survives the lookup of its local id and back |
| Records.LocalIdSurvives | source/src/org/societies/android/platform/entity/PersonActivity.java:133-153 | one reference's local id survives the lookup of its global id and back |
| Records.LocalIdsSurviveFetch | source/src/org/societies/android/platform/entity/Relationship.java:128-159 | resolving references to global ids and back restores their local ids when each names a person with a global id of its own |
| Records.PopulatePrefix | source/src/org/societies/android/platform/entity/Entity.java:90-102 | rows are populated in cursor order. The first failure is caught and ends the list, so the result is the longest readable prefix |
| Records.GetEntities | source/src/org/societies/android/platform/entity/Entity.java:79-109 | each result is the populated row of the query at its position, of the queried class. When every row is readable, nothing is cut off |
| Records.QueryAllRows | source/src/org/societies/android/platform/entity/Person.java:47-50 | a query with no selection returns the whole table |
| Records.FetchEach | source/src/org/societies/android/platform/entity/PersonActivity.java:68-69 | the loop fetches the global ids of each entity in place |
| Records.FetchEachFetched | source/src/org/societies/android/platform/entity/Relationship.java:67-68 | a query result with its global ids fetched is of the class, dirty when selected so, and resolved |
| Records.GetPeople | source/src/org/societies/android/platform/entity/Person.java:47-50 | every person, with no selection filter |
| Records.GetUpdatedCommunities | source/src/org/societies/android/platform/entity/Community.java:50-60 | every community, because the last-sync filter is commented out |
| Records.GetUpdatedMemberships | source/src/org/societies/android/platform/entity/Membership.java:48-51 | every membership, with no dirty or date filter |
| Records.GetCommunityActivities | source/src/org/societies/android/platform/entity/CommunityActivity.java:46-49 | every community activity |
| Records.UpdatedQueriesIgnoreLastSync | source/src/org/societies/android/platform/entity/Community.java:50-60 | the last-sync argument has no effect on the result |
| Records.GetUpdatedPersonActivities | source/src/org/societies/android/platform/entity/PersonActivity.java:57-72 | only rows selected by DIRTY = 1, each with its global ids fetched. When every row is readable it returns all of them |
| Records.GetAllPersonActivities | source/src/org/societies/android/platform/entity/PersonActivity.java:80-95 | every row, each with its global ids fetched |
| Records.GetUpdatedRelationships | source/src/org/societies/android/platform/entity/Relationship.java:56-71 | only rows selected by DIRTY = 1, each with its global ids fetched. When every row is readable it returns all of them |
| Records.GetAllRelationships | source/src/org/societies/android/platform/entity/Relationship.java:79-94 | every row, each with its global ids fetched |
| Records.DirtyRowsReadDirty | source/src/org/societies/android/platform/entity/PersonActivity.java:57-66 | every entity the DIRTY = 1 selection yields has dirty flag 1 |
| Records.SerializedFields | source/src/org/societies/android/platform/entity/Person.java:83-94 | exactly Person, Membership and CommunityActivity write their own lines. Each starts with the global id and never includes the local id |
| Records.SerializedFieldsAreStoredValues | source/src/org/societies/android/platform/entity/Membership.java:64-95 | Person and Membership serialise exactly the columns they store, each field as the text of its stored value |
| Records.CommunityActivityFieldsPopulate | source/src/org/societies/android/platform/entity/CommunityActivity.java:51-82 | a row holding CommunityActivity's seven serialised fields populates back to the activity, so `populate` sets the id and exactly those fields |
| SyncServices.NewRegistry | source/src/org/societies/android/p2p/service/P2PSyncServerService.java:40-47 | a new service has no workers, no running types and no receivers |
| SyncServices.StartWorker | source/src/org/societies/android/p2p/service/P2PSyncServerService.java:82-90 | the worker is started and recorded under its type. The type is marked running and its receiver registered. Lines 95-103 of P2PSyncClientService.java are the same |
| SyncServices.OnStartCommand | source/src/org/societies/android/p2p/service/P2PSyncServerService.java:50-63 | a null intent does nothing, and a type that already has a worker does nothing. Otherwise a worker is started and recorded for the type. Lines 57-76 of P2PSyncClientService.java are the same |
| SyncServices.StopWorker | source/src/org/societies/android/p2p/service/P2PSyncServerService.java:126-136 | the recorded worker, if any, is told to stop. The type stops running and its receiver goes, even with no worker recorded. The worker stays in the map |
| SyncServices.StopAllWorkers | source/src/org/societies/android/p2p/service/P2PSyncServerService.java:143-153 | every recorded worker is told to stop and the map ends empty. Its types stop running |
| SyncServices.StopSync | source/src/org/societies/android/p2p/service/P2PSyncServerService.java:158-163 | the type is stopped, and the service stops itself exactly when the worker map is empty |
| SyncServices.StopAllSync | source/src/org/societies/android/p2p/service/P2PSyncServerService.java:168-172 | every worker is stopped and removed, and the service stops itself |
| SyncServices.StartThenStop | source/src/org/societies/android/p2p/service/P2PSyncServerService.java:181-183 | a started type counts as running, and stopping it ends that |
| SyncServices.StoppedTypeCannotRestart | source/src/org/societies/android/p2p/service/P2PSyncServerService.java:126-163 | since stopping a type keeps its worker in the map, the service does not stop itself, and a later start intent for that type is ignored |
| SyncServices.RestartAfterStopAll | source/src/org/societies/android/p2p/service/P2PSyncClientService.java:157-186 | after everything is stopped, a start intent starts a worker again |
| WiFiDirect.StartSyncClient | source/src/org/societies/android/p2p/WiFiDirectSyncManager.java:73-87 | any running sync is stopped first, awaiting its end. Then the client service is started towards the owner with a listener on WIFI_DIRECT_CLIENT_PORT and this device's unique id |
| WiFiDirect.OnConnectionInfo | source/src/org/societies/android/p2p/WiFiDirectSyncManager.java:146-165 | the group owner starts the server on WIFI_DIRECT_SERVER_PORT and reports SERVER. Another member starts a client towards the owner's address on WIFI_DIRECT_SERVER_PORT and reports CLIENT. Before a group forms nothing happens |
| WiFiDirect.RoleFollowsOwnership | source/src/org/societies/android/p2p/WiFiDirectSyncManager.java:148-164 | a formed group reports exactly one role, and it is SERVER exactly when this device owns the group |
| WiFiDirect.ErrorMessage | source/src/org/societies/android/p2p/WiFiDirectSyncManager.java:45-52 | ERROR, P2P_UNSUPPORTED and BUSY map to their fixed texts, and any other reason to null |
| WiFiDirect.ErrorMessagesDistinct | source/src/org/societies/android/p2p/WiFiDirectSyncManager.java:45-52 | different known reasons give different messages |
| WiFiDirect.OnDiscoverFailure | source/src/org/societies/android/p2p/WiFiDirectSyncManager.java:107-118 | a discovery failure reports the mapped message |
| WiFiDirect.OnConnectFailure | source/src/org/societies/android/p2p/WiFiDirectSyncManager.java:120-134 | a connect failure reports the mapped message |
| Utf8.DecodeEncode | source/src/org/societies/android/p2p/net/P2PConnection.java:124-135 | `new String(s.getBytes())` gives back s |
| Utf8.EncodeAppend | source/src/org/societies/android/p2p/net/P2PConnection.java:135 | the encoding of a concatenation is the concatenation of the encodings |
| Decimal.ParseLongOfDecimal | source/src/org/societies/android/p2p/entity/RequestTypeAdapter.java:94 | `Long.parseLong` inverts `Long.toString` for every long, which the last-request time relies on |
| JavaInts.ToInt | source/src/org/societies/android/p2p/Peer.java:96 | the `(int)` cast keeps the low 32 bits as a two's-complement value, and an int is unchanged |
| JavaInts.Div | source/src/org/societies/android/p2p/Peer.java:96 | Java's `/` truncates toward zero |

## Left out

- Threads and blocking are not modelled. The accept loop, `ClientHandler` and `UpdateSender`
  thread starts, `Thread.sleep(POLL_INTERVAL)`, `join` and `interrupt` become steps or recorded
  effects. A thread that would wait in `HandshakeLock.lock` is a step that cannot be taken.
  `InterruptedException` paths are not modelled.
- Sockets, `connect()`, timeouts and stream closing are not modelled as I/O. A connection is the
  bytes it has read and written. Connect and send failures are exception arguments. The
  `finally { close() }` blocks in the server threads are not modelled.
- Gson is not modelled as code. It is replaced by the `JsonText` and `EntityCodec` oracles with
  lawfulness predicates. `Class.forName` covers only the six entity classes.
- `Entity.getUpdatedEntities` and `Entity.getAllEntities` are not part of this source snapshot.
  The poller tick and the handshake take their results as arguments.
- `UUID.randomUUID` is a function argument and `System.currentTimeMillis` a number argument.
- `isGlobalIdValid` is not part of this source snapshot. It is modelled as "present and
  non-empty".
- The charset of `String.getBytes()` and `new String(bytes)` is taken to be UTF-8, Android's
  default. Malformed input decoding is simplified.
- EntityBase.GetLong: a text cell read with `getInt`/`getLong` is taken as 0, as SQLite does for
  non-numeric text. Numeric text is not converted.
- EntityOps.ProviderValues: CommunityActivity's `getEntityValues` returns null. The model takes it
  as an empty value set rather than modelling the provider's reaction to null.
- SyncServer.ReceivedLiveRecordStored: a batch that pushes a table's row ids past the `int` range is not covered. There `getLocalId` narrows the id and may resolve to the wrong row, so the lemma asks for room for one id per record.
- Records.IsAllGlobalIdsSet: for Person, Community, Membership and CommunityActivity, which do not define the method, only the own global id is checked. Membership's member and community global ids are not checked.
- Records.FetchGlobalIds: for the four classes that do not define the method, it is the identity.
- Records.Populate: the four classes without flag fields populate with clean flags, and their flags are never stored. None of the snapshot's classes defines `setDirtyFlag` or `getDeletedFlag`.
- Messages.DeserializeRequest: the `fromJson` boundary follows Gson 2, which rethrows an adapter's IllegalStateException as JsonSyntaxException and lets other exceptions through. The repackaged Gson's version is not known. Gson 1 would instead wrap every adapter exception in JsonParseException. The same holds for DeserializeRequestWithId, DeserializeResponse and DecodeEntities.
- EntityOps.Serialize: the failure of Gson's `toJson` (which would make `serialize` return null)
  is not modelled. Serialisation is a pure function, so the id restore in the `finally` holds by
  construction.
- The Request and Response setters and getters are datatype field updates and reads. They change
  nothing else by construction and have no members of their own.
- P2PSyncManager, the base class of WiFiDirectSyncManager, is not part of this model. Its
  `stopSync`, `startSyncServer` and listener calls become recorded effects.
- SyncServices.OnStartCommand: the intent's extras are not null-checked. A start intent is given
  as its connection type and the worker built from it.
- Registering and unregistering broadcast receivers is a set of connection types. Receiver objects
  and intent filters are not modelled.
- The static `mSyncServerRunning` / `mSyncClientRunning` maps are a field of one registry rather
  than state shared by all instances.
- Poller.ResetEntityDirtyFlag: `removeAll` compares with `equals`. The entity classes do not
  override it, so Java compares references. The model uses structural equality.
- HandshakeLock.TryLock: the counters are unbounded. An int overflow after 2^31 holders is not
  modelled.
- Peers.SetLastUpdateTimeNow: the clock must give a long. The narrowed result equals the seconds
  only when they fit an int.
- The Box.com sync, the Bluetooth and Wi-Fi Direct socket transports, the activities, the
  broadcast receivers and the superseded `p2p/` copies of the server, poller and services are
  outside this model.

## Findings

| source | as written | input that shows it | evidently intended | confidence | as-written member | corrected member |
|---|---|---|---|---|---|---|
| source/src/org/societies/android/p2p/entity/RequestTypeAdapter.java:63-66 | `serialize` writes type, last-request time and entities but not the unique id, so every deserialised request has a null id | any typed request with id "a": the round trip gives a request with a null id | the id is written and read back, so the server can register the sender and exclude it from the fan-out | high, not executed | Messages.RequestRoundTripDropsUniqueId | Messages.RequestWithIdRoundTrip |
| source/src/org/societies/android/p2p/service/P2PSyncServer.java:211-228 | `unlock(HANDSHAKE)` is the last statement, so any exception after `lock` leaves the handshake count raised for good | an idle server and a client that disconnects before the reply is written: the send throws IOException and every later update waits | the unlock sits in a `finally` | high, not executed | SyncServer.DisconnectedHandshakeLeaksLock | SyncServer.ReleasingHandshakeFreesUpdates |
| source/src/org/societies/android/p2p/service/P2PSyncServer.java:248-271 | `unlock(UPDATE)` is not in a `finally`. A peer with a null id, which the first finding makes every peer have, throws NullPointerException in the loop and the update count stays raised. A null record in the received list does the same in `processUpdate` | an idle server whose list holds one active peer without an id, and any update request whose entity list is not null, as every list a client builds is | the unlock sits in a `finally` | high, not executed | SyncServer.AnonymousPeerLeaksUpdateLock | SyncServer.HandleClientUpdatesReleasing |
| source/src/org/societies/android/p2p/service/P2PSyncServer.java:319-348 | `unlock(UPDATE)` is reached only on success. A failed connect or send leaves the update count raised, and no handshake runs again | an idle server pushing to its one peer whose connect times out | the unlock sits in a `finally` | high, not executed | SyncServer.UnreachablePeerLeaksLock | SyncServer.ReleasingSenderFreesHandshakes |
