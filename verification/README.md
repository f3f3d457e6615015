# Keyraft: verified model of the store, its watchers and its readers

Keyraft is a versioned key-value store. A name is a (namespace, key) pair; every set of a name adds a numbered
record to its history, a delete only marks the current value, and deleting a namespace erases the values, histories
and counters of exactly that namespace. On disk there are only four flat buckets of byte keys, read by prefix scans.
Clients list namespaces, watch them for changes over bounded channels, keep caches, and are admitted by tokens.

The project proves that the flat buckets, the engine on top of them, the handlers and the watchers behave like one
simple abstract store. It also proves what the readers built on them hold: a watcher, or a stream client, with no send
dropped can rebuild the current listing; a cache of a three-level namespace is exact right after a successful reload if
and only if its request was answered with the listing, which is not always the case (see below).

## Modules

| module | models |
|---|---|
| `ByteOrder` | byte-string order, ascending key sequences, the bucket cursor (`Seek`, `Next`) and prefix scans |
| `Names` | name alphabets, splitting at `/`, the bucket keys, `%020d`, big-endian int64 counters |
| `Store` | the abstract store, its operations and its runs |
| `Buckets` | the four buckets as maps, what it means that they represent an abstract store, and the effect of every write on that |
| `Bolt` | class `BoltStore`: the storage methods with their cursor loops, refined to the abstract store |
| `Secrets`, `Engine` | encryption at rest; class `Engine`, seen through decryption |
| `Channels`, `WatchProtocol`, `WatchManager` | bounded channels; the watch manager as a concurrent protocol; class `Manager` with its map and methods |
| `Replay`, `Server`, `Routes` | folding events over a listing; class `Server` with the write, watch and read handlers; paths |
| `ClientCache` | class `CachedClient`: reload and callback deltas |
| `Auth` | scopes, and class `Service` with the token store |
| `Audit` | class `AuditLog` with backward paging |
| `Sse` | event frames and the client's line loop |
| `UiRoute` | the address bar of the web UI |

A class method is proved against a function or predicate of the abstract state, and the results below are lemmas about
those. `BoltStore.model`, `Server.base`, `Connection.frames` and `Manager.closed` are ghost fields; `RepresentsUnique` shows
that the first is determined by the real fields.

## Assumptions

- A cursor's `Next` returns the least stored key strictly greater than the last key it returned, also when that key
  has just been deleted. Each storage transaction is atomic.
- What `Encrypt` produced decrypts to its plaintext, the empty string included (`Secrets.RoundTrips`).
- A key has fewer than 2^63 - 1 versions. `Store.RunWellFormed` shows that no run of up to 2^63 - 1 operations breaks this.
- Key arguments of the read and delete operations contain no `/`, which the routes guarantee.
- Runs are sequences of engine operations. The public `GetNextVersion` of the storage is never called by the engine and
  would leave gaps in the numbering.
- Token strings are drawn fresh. The concurrent protocol is safe while no watcher identifier is registered again before the
  cleanup of its previous holder has returned, which fresh identifiers satisfy; class `Manager` makes identifiers as the
  code does, and `WatchManager.FreshNumberExact` says for which counters they are fresh.
- A `char` stands for one byte of a key or stream; names are ASCII by their validators. A time is a number and 0 is the zero
  time; clock readings, random draws and encryption nonces are parameters.
- In `UiRoute`, `encodeURIComponent` leaves unreserved characters alone and `decodeURIComponent` leaves strings without
  `%` alone (section 19.2.6 of ECMA-262), and the browser resolves dot segments as in the path state of the WHATWG URL
  parser.

## Where the code does not do what one would expect

- Appending scopes can turn an allowed request into a refused one: a token with neither role nor scopes has unrestricted
  access, and loses it with its first scope. `Auth.AppendingScopes` says exactly when, `Auth.AppendingCanRefuse` gives one.
- Two watcher identifiers of the same second are equal when their counters are both shown as U+FFFD, as every surrogate is:
  0xD801 repeats 0xD800. `WatchManager.WatcherIdsEqual` has the exact condition for any two counters, and
  `WatchManager.FreshNumberExact` the counters whose identifier repeats no earlier one.
- With a repeated identifier a channel can be closed twice, which panics: `WatchProtocol.ReusedLabelClosesTwice` is such a run.
- The listing a cache asks for is a GET of the namespace path, which the get-or-list routing may answer with something else.
  A live key of the parent with the name of the namespace (`db` in `app/prod` for a cache of `app/prod/db`) is returned
  instead, and so is a version history when the last segment is `versions`; the client decodes either to no entries, empties its
  cache and tells every callback so. `ClientCache.LoadExact` has the exact condition, `ClientCache.KeyHidesNamespace` the run.
- A cache of a deleted namespace whose last segment has an underscore or upper-case letter keeps its old entries, because
  the request is then refused as an unknown key (`ClientCache.ErasedNamespaceLoad`).
- The last root token that still validates can be revoked while an expiring one is stored beside it
  (`Auth.LastUsableRootCanGo`; `Auth.StepKeepsPermanentRoot` has the exact condition).
- After a namespace is deleted its version numbers start again at 1, so a cache can miss a change of value
  (`ClientCache.ErasedNamespaceChangesSilently`; `ClientCache.DeltaOrderFree` has the exact condition).
- A key named `versions` under a namespace of two or more levels cannot be read by its path: the versions route is
  registered first (`Routes.PathOfKeyReachesHandler`).
- A watcher of `*` receives every event, but a listing of `*` is empty (`Replay.WildcardListingEmpty`).
- A delete of an already deleted key succeeds and notifies again (`Store.DeleteStore`, `Replay.EventsOf`).
- Keys named `.` and `..` are valid but do not survive the address bar of the UI (`UiRoute.UrlRoundTrip`).
- The greeting frame of a stream reaches the client as an event with an empty action, which a reader has to ignore
  (`Sse.WholeStreamDelivers`, `Server.StreamedReplica`).
- A stream client stops for good at the first event whose line reaches 65536 bytes (`Sse.CutStream`).

## Model

| member | source | states |
|---|---|---|
| Bolt.BoltStore.Set | internal/storage/boltdb.go:74-135 | a set refuses invalid names, each with its own error, without any effect; otherwise the buckets represent the store after the set and the caller gets the entry with the next number and the write times |
| Bolt.BoltStore.Get | internal/storage/boltdb.go:138-163 | returns the last record of the name if it is live and an error otherwise, for every namespace string |
| Bolt.BoltStore.GetVersion | internal/storage/boltdb.go:166-182 | for every int64 number, negative ones included, returns that record of that history or an error |
| Bolt.BoltStore.List | internal/storage/boltdb.go:185-207 | the cursor loop returns the live values of the namespace and its descendants, each once, in byte order, and nothing else |
| Bolt.BoltStore.Delete | internal/storage/boltdb.go:210-234 | marks exactly the named cell deleted, keeps history and numbering, fails for unknown names without effect |
| Bolt.BoltStore.GetVersions | internal/storage/boltdb.go:237-257 | the cursor loop returns precisely the history of that one key in version order |
| Bolt.BoltStore.GetNamespace | internal/storage/boltdb.go:271-286 | finds exactly the namespaces of the abstract store |
| Bolt.BoltStore.DeleteHistory | internal/storage/boltdb.go:335-341 | the inner scan-and-delete loop terminates and removes exactly the records under the prefix |
| Bolt.BoltStore.EraseKey | internal/storage/boltdb.go:330-345 | one round removes exactly one cell, live or not, and keeps the buckets coherent |
| Bolt.BoltStore.DeleteNamespace | internal/storage/boltdb.go:308-350 | the nested loops terminate and erase exactly the cells of this namespace and its record; child namespaces and all others are untouched |
| Buckets.RepresentsUnique | internal/storage/boltdb.go:74-135 | the buckets determine the abstract store they represent: no two stores share a representation |
| Buckets.LookupExact | internal/storage/boltdb.go:138-163 | current value and counter of a name are in the buckets exactly when the name has a cell, under keys no other name uses |
| Buckets.VersionLookupExact | internal/storage/boltdb.go:166-182 | a record key is stored exactly when its number lies in the history of its name |
| Buckets.CounterStored | internal/storage/boltdb.go:494-511 | the stored counter decodes to the length of the history, and is absent exactly when there is none |
| Buckets.TransactionRepresents | internal/storage/boltdb.go:82-134 | the four writes of one transaction keep counter, current version and history length equal and disturb no other cell |
| Buckets.DeleteRepresents | internal/storage/boltdb.go:210-234 | the single write of a soft delete keeps the buckets coherent |
| Buckets.EraseRepresents | internal/storage/boltdb.go:330-345 | dropping value, history range and counter of one key leaves exactly the other cells represented |
| Buckets.ScanIsListing | internal/storage/boltdb.go:185-207 | the live values under a prefix, in key order, are the listing of the abstract store |
| Buckets.ScanIsHistory | internal/storage/boltdb.go:237-257 | the records under `ns/key#`, in byte order, are the history in version order |
| ByteOrder.SeekIsFirst | internal/storage/boltdb.go:190-194 | seeking a prefix lands on the least key that has it, or off the range when there is none |
| ByteOrder.NextIsSuccessor | internal/storage/boltdb.go:190-194 | each step of a scan moves to the next key with the prefix and the loop guard fails exactly after the last |
| ByteOrder.PrefixContiguous | internal/storage/boltdb.go:190-194 | the keys with a given prefix are contiguous in byte order |
| ByteOrder.StepLeavesRest | internal/storage/boltdb.go:320-346 | stepping past a key that was just deleted leaves exactly the other matching keys ahead, strictly fewer than before |
| Names.KVKeyInjective | internal/storage/boltdb.go:535-537 | different names never share a bucket key, whatever the namespace strings |
| Names.KVKeyUnder | internal/storage/boltdb.go:185-207 | the prefix `p/` covers exactly the keys of `p` and its descendants |
| Names.HistoryPrefixExact | internal/storage/boltdb.go:539-541 | the prefix `ns/key#` matches the records of that key and of no other |
| Names.VersionKeyInjective | internal/storage/boltdb.go:539-541 | different records never share a history key |
| Names.Pad20Order | internal/storage/boltdb.go:539-541 | byte order of the padded numbers is numeric order for every non-negative int64 |
| Names.CounterRoundTrip | internal/storage/boltdb.go:494-511 | the eight big-endian bytes of every int64 decode to it |
| Names.BigEndianExact | internal/storage/boltdb.go:504-505 | the most significant byte of a counter comes first |
| Names.Pad20Denotes | internal/storage/boltdb.go:539-541 | the padded number has twenty characters and denotes the version |
| Names.ValidNamespaceExact | internal/models/models.go:151-164 | valid namespaces are exactly the strings of at most 256 bytes made of one to three words joined by slashes |
| Names.ValidKeyExact | internal/models/models.go:167-180 | valid keys are exactly the strings of 1 to 256 letters, digits, dots, underscores and hyphens |
| Store.RunWellFormed | internal/storage/boltdb.go:82-134 | over every run of engine operations each current value has a namespace record and a non-empty history numbered exactly 1..n |
| Store.SetWrites | internal/storage/boltdb.go:82-134 | written out: a set appends one record with the next number, the given value, type and metadata and the write time, makes it the current value, keeps or sets the namespace times, and leaves all else |
| Store.DeleteWrites | internal/storage/boltdb.go:224-232 | written out: a soft delete keeps the records and changes only the flag and the update time of one current value |
| Store.EraseWrites | internal/storage/boltdb.go:308-350 | written out: after a namespace deletion exactly the other namespaces and their cells remain, as they were |
| Store.RefusedWritesNothing | internal/storage/boltdb.go:210-217 | refused operations leave everything as it was |
| Store.RecordsAreImmutable | internal/storage/boltdb.go:93-133 | along every run without a deletion of its namespace the old history of a key is a prefix of the new one |
| Store.VersionCountsSets | internal/storage/boltdb.go:93-133 | along every run the last number of a key is the count of its accepted sets since its namespace was last deleted, soft deletes notwithstanding |
| Store.ListingUnique | internal/storage/boltdb.go:185-207 | a listing is determined by the abstract store, order included |
| Secrets.RevealWellFormed | internal/engine/engine.go:103-122 | decrypting a coherent store gives a coherent store |
| Secrets.RevealSet | internal/engine/engine.go:26-62 | storing the ciphertext and then decrypting the store is setting the plaintext in the decrypted store |
| Secrets.RevealDeleteNamespace | internal/engine/engine.go:162-186 | erasing commutes with decrypting, and every remaining secret still decrypts |
| Secrets.RevealListing | internal/engine/engine.go:103-122 | decrypting a stored listing entry by entry gives the listing of the plaintext store |
| Engine.Engine.Set | internal/engine/engine.go:26-62 | succeeds exactly on valid names and successful encryption, stores the ciphertext of a secret, is one abstract set of the plaintext, and returns the plaintext entry as it now stands; every refusal has its error |
| Engine.Engine.Get | internal/engine/engine.go:65-81 | returns the live plaintext value or not-found; decryption never fails on what the engine stored |
| Engine.Engine.GetVersion | internal/engine/engine.go:84-100 | returns the numbered plaintext record or not-found |
| Engine.Engine.List | internal/engine/engine.go:103-122 | returns the plaintext listing, after decrypting in place |
| Engine.Engine.Delete | internal/engine/engine.go:125-127 | is one abstract soft delete; fails exactly on unknown names |
| Engine.Engine.GetVersions | internal/engine/engine.go:130-149 | returns the plaintext history |
| Engine.Engine.GetNamespace | internal/engine/engine.go:157-159 | finds exactly the namespaces of the plaintext store |
| Engine.Engine.DeleteNamespace | internal/engine/engine.go:162-186 | erases the namespace and returns exactly the keys that stop being visible, each once, in byte order |
| Channels.WatchAgreesWithList | internal/watch/watch.go:146-163 | apart from `*`, watching a namespace covers exactly the namespaces its prefix scan lists: equal segments or a prefix of them |
| Channels.QueueConservation | internal/watch/watch.go:77-94 | received and buffered events are a subsequence of the send attempts in attempt order, received + buffered + dropped equals attempts, and nothing is dropped exactly when every attempt met a backlog below capacity |
| Channels.DeliverWrites | internal/watch/watch.go:83-92 | written out: a matching event goes to the end of the buffer if there is room and is dropped otherwise, and the attempt is recorded with the number of events buffered |
| Channels.DeliverAllOffersMatching | internal/watch/watch.go:77-94 | a watcher is offered exactly the matching events, in order |
| WatchProtocol.EveryInterleavingSafe | internal/watch/watch.go:42-143 | in every interleaving of watch, unwatch, overlapping notify, cancel, cleanup and receive in which no identifier is registered again before its previous holder's cleanup has returned, nothing is sent on a closed channel, no channel is closed twice, and every channel conserves its queue |
| WatchProtocol.ReusedLabelClosesTwice | internal/watch/watch.go:133-143 | without that condition a run reaches a second close of a channel |
| WatchProtocol.FreshLabelIsOrderly | internal/watch/watch.go:165-174 | an identifier never given before meets the condition |
| WatchProtocol.StepInv | internal/watch/watch.go:42-143 | every single step keeps the lock discipline and ties each open channel to its registration |
| WatchProtocol.RegisteredIffOpen | internal/watch/watch.go:65-74 | whenever the write lock is free a watcher is in the map exactly when its channel is open |
| WatchProtocol.AllCleanedUp | internal/watch/watch.go:133-143 | once every cleanup goroutine has returned the map is empty and every channel is closed |
| WatchProtocol.NotifyOrderFree | internal/watch/watch.go:77-94 | when nothing else runs, whatever order a notify ranges over the watchers in, its last send leaves the channels it owed at the start |
| WatchProtocol.NotifyAttemptsOnce | internal/watch/watch.go:77-94 | in every interleaving, a notify attempts exactly one send to each watcher registered when it took the lock, and none to any other |
| WatchProtocol.ChannelHistory | internal/watch/watch.go:77-94 | in every interleaving, a channel's state depends only on the sends, receives and close that touch it, in their order; how sends to different watchers are ordered does not matter |
| WatchProtocol.SendWrites | internal/watch/watch.go:83-92 | written out for the send step: a matching event is buffered if there is room and dropped otherwise, its backlog is recorded, and no other channel changes |
| WatchProtocol.ChannelIsQueue | internal/watch/watch.go:77-94 | from its registration on, a channel is a bounded first-in-first-out queue with the drops it counts |
| WatchProtocol.BothEventsReceived | internal/watch/watch.go:77-94 | a run in which two notifications hold the read lock at once and a watcher receives both events, in the order of the sends |
| WatchProtocol.CancelledIsCleanedUp | internal/watch/watch.go:133-143 | a run in which cancelling a watcher ends with its channel closed and the map empty |
| WatchProtocol.WriterProgresses | internal/watch/watch.go:42-74 | the holder of the write lock can always take a step |
| WatchProtocol.CancelledWatcherProgresses | internal/watch/watch.go:133-143 | while a cancelled watcher is registered some goroutine of the manager can take a step |
| WatchProtocol.StepLowersRank | internal/watch/watch.go:42-143 | in every state, each step the manager's goroutines take by themselves lowers a rank, registration included |
| WatchProtocol.CancelledWatchersRemoved | internal/watch/watch.go:133-143 | without new calls the manager comes to rest after boundedly many steps in any order, and then no cancelled watcher is registered |
| WatchManager.WatcherIdsEqual | internal/watch/watch.go:169-174 | for any two seconds and counters, the identifiers are equal if and only if the seconds are and the counters have the same rune or two runes shown as U+FFFD |
| WatchManager.FreshNumberExact | internal/watch/watch.go:169-174 | the identifier of a counter repeats none made earlier in its second if and only if the counter is at most 0xD800, or from 0xE000 to 0x10FFFF other than 0xFFFD, or 2^32 |
| WatchManager.Manager.Watch | internal/watch/watch.go:42-62 | puts one open, empty channel under the next identifier and leaves all others; that identifier is not in use if its counter is fresh, and otherwise may displace a watcher |
| WatchManager.Manager.Unwatch | internal/watch/watch.go:65-74 | closes the channel of exactly the named watcher and removes it; an unknown one is ignored |
| WatchManager.Manager.Notify | internal/watch/watch.go:77-94 | every matching watcher with room has the event at the end of its buffer, one with a full buffer keeps it, each with one more attempt; every other watcher is unchanged |
| Replay.ListedIffWatched | internal/watch/watch.go:146-163 | for every namespace but `*`, a live entry is listed if and only if a watcher of that namespace is told of its changes |
| Replay.StepReplay | internal/api/handlers.go:90-99 | the matching events of any one operation turn the old listing of a namespace into the new one, namespace deletion included |
| Replay.RunReplay | internal/api/handlers.go:459-472 | over every serial run, folding the matching events over the listing at registration gives exactly the current listing |
| Replay.ReplayedName | internal/api/handlers.go:459-472 | the same name by name: after every serial run the replica has a name exactly while it is stored, not deleted and watched, with its current value |
| Replay.LastEventDecides | internal/watch/watch.go:97-115 | in a replay the last set or delete of a name decides what the replica holds of it |
| Replay.OtherNamesKept | internal/watch/watch.go:97-115 | in a replay a name no event concerns is as it was |
| Replay.EventsOfWrites | internal/api/handlers.go:90-99 | written out: one event for a set, with the entry as it now stands; one for a delete; one for each live key of a deleted namespace, in byte order; none if refused |
| Replay.ListingIsLiveMap | internal/storage/boltdb.go:185-207 | the map a client builds from a listing holds exactly the stored, not deleted names of the namespace and its descendants, with their current values |
| Replay.WildcardListingEmpty | internal/watch/watch.go:152-155 | listing `*` shows nothing in any well-formed store, so `*` watchers cannot replay |
| Server.Server.HandleSetKey | internal/api/handlers.go:47-105 | mutates and notifies exactly one event as one operation, or refuses with neither; every watcher's mirror stays exact |
| Server.Server.HandleDeleteKey | internal/api/handlers.go:142-173 | the same for a soft delete |
| Server.Server.HandleDeleteNamespace | internal/api/handlers.go:444-480 | the same for a namespace deletion, with one delete event per key that stops being visible, in order |
| Server.Server.HandleWatch | internal/api/handlers.go:267-295 | registers a watcher for readers only; its mirror starts as the map of the listing at registration |
| Server.Server.Unwatch | internal/api/handlers.go:346-347 | removing one watcher leaves the mirrors of all others exact |
| Server.NoDropMeansReplica | internal/api/handlers.go:90-99 | a watcher none of whose sends was dropped holds enough to rebuild the current listing, secrets in plaintext |
| Server.Server.OpenStream | internal/api/handlers.go:328-357 | a stream starts as a registered watcher and a connection carrying just the greeting |
| Server.Server.WriteNext | internal/api/handlers.go:360-371 | one round of the stream loop keeps the connection carrying the greeting and one frame for each event received, and keeps every mirror exact |
| Server.Server.WriteWaiting | internal/api/handlers.go:360-371 | the loop ends with everything buffered received and written, in order |
| Server.DeliveryKeepsStreams | internal/api/handlers.go:360-371 | notifications of other writes leave what a stream has carried as it is |
| Server.StreamedReplica | internal/api/handlers.go:328-371 | from store to stream client: with no send dropped and nothing left buffered, folding what the client reads from its stream, greeting included, over the listing at registration gives exactly what a listing answers now |
| Server.DeliveryKeepsMirrors | internal/api/handlers.go:160-167 | delivering the events of one operation keeps every mirror exact |
| Server.DeliverOneWrites | internal/watch/watch.go:77-94 | written out: what one event does to every watcher |
| Server.Server.HandleListKeys | internal/api/handlers.go:184-264 | the answer to every caller: the live key the path names if its parent is readable, else not-found for an unknown path that ends like a key under a readable parent, else the listing if the path is readable, else refusal; version v of a readable key is answered with the record numbered v or not-found, and bad-request exactly when v is no number |
| Server.Server.GetOrList | internal/api/handlers.go:224-264 | the get-or-list decision of the handler, stated on the split at the last slash for every caller |
| Server.Server.ServeGet | internal/api/server.go:61-65 | with routing in front, the answer to every caller for every path; a readable live key is returned by its path unless it is shadowed, and the path of any valid name followed by `/versions` is answered with its history |
| Server.SetIsServed | internal/api/handlers.go:91-105 | after a set the path of the key names what was set under the next number, and reaches the key handler exactly when it is not shadowed |
| Routes.SplitUndoesKVKey | internal/api/handlers.go:199-205 | for all strings, splitting at the last slash undoes the joining of namespace and key and the other way round |
| Routes.PathOfKeyReachesHandler | internal/api/server.go:61-65 | which route takes the path of a valid name, the shadowed `versions` keys included |
| Routes.RouteGetExact | internal/api/server.go:62 | the versions route takes exactly the paths `ns/key/versions` with both parts non-empty and no slash in the key |
| Routes.PathOfHistory | internal/api/server.go:62 | the path of every valid name followed by `/versions` asks for the history of that name |
| Routes.LooksLikeKeyNameExact | internal/api/handlers.go:176-181 | on ASCII the heuristic is an underscore or a difference from the lower-case form |
| ClientCache.DeltaOrderFree | pkg/client/cache.go:192-221 | the callbacks of one reload, applied in any order to the old values, give exactly the new values if and only if no value changed under an unchanged version |
| ClientCache.LoadsChangeVisibly | pkg/client/cache.go:141-162 | between two successful loads of a three-level namespace that was not deleted no value changes under an unchanged version, whatever the requests were answered with |
| ClientCache.CacheIsNamespace | pkg/client/cache.go:147-155 | built from a listing of a three-level namespace, the cache is exactly its live keys with their current values |
| ClientCache.CacheHolds | pkg/client/cache.go:147-155 | written out: a key is cached exactly while it is stored and not deleted, with its current value |
| ClientCache.LastEntryWins | pkg/client/cache.go:151-153 | the last listed entry of a key is the cached one, for every listing |
| ClientCache.CachedKeys | pkg/client/cache.go:151-153 | exactly the listed keys are cached |
| ClientCache.LoadOutcome | pkg/client/client.go:213-243 | for every store and caller, when a load of a three-level namespace succeeds, and what it then sees |
| ClientCache.LoadExact | pkg/client/client.go:213-243 | a successful load is exact if and only if the path of the namespace is taken neither by the versions route nor by a live key the caller may read, or nothing is live |
| ClientCache.ReadableLoadExact | pkg/client/client.go:213-243 | for a caller who may read a namespace with live keys and its parent: exact if and only if the last segment is not `versions` and the parent has no live key of that name |
| ClientCache.KeyHidesNamespace | internal/api/handlers.go:224-230 | a run of two sets after which every load of a namespace with a live key succeeds and sees nothing |
| ClientCache.ErasedNamespaceLoad | internal/api/handlers.go:232-239 | after its deletion a namespace is loaded as empty, or refused when its name ends like a key, in which case caches keep their entries |
| ClientCache.CallbacksReachStore | pkg/client/cache.go:141-221 | after any run without a deletion of a three-level namespace, one successful reload's callbacks in any order give every reader exactly the live values of the store if and only if the request was answered with the listing, or no live value is other than empty |
| ClientCache.ErasedNamespaceChangesSilently | pkg/client/cache.go:202-204 | a concrete run with a namespace deletion after which a changed value carries its old version number |
| ClientCache.CachedClient.Reload | pkg/client/cache.go:141-162 | asks the server for the namespace path; on an error nothing changes, otherwise swaps in what came back keyed by bare key and starts every callback exactly once per changed key |
| ClientCache.CachedClient.Install | pkg/client/cache.go:147-161 | the loop keys entries by bare key, the last one winning, and the callbacks started are the change from the old cache |
| ClientCache.CachedClient.NotifyChanges | pkg/client/cache.go:192-221 | every callback is started exactly once for each key that is new, has another version or is gone, with the new value or the empty string, and for no other key |
| ClientCache.CachedClient.GetAll | pkg/client/cache.go:83-93 | returns the values of the whole cache |
| Auth.ScopeIsAncestry | internal/auth/auth.go:114-144 | for all strings `p/*` matches exactly when the segments of p are a prefix of the namespace's, which for p other than `*` is the watch relation |
| Auth.ScopeMeaning | internal/auth/auth.go:116-141 | for all strings a scope matches exactly when it is `*`, the namespace itself, or `p/*` for p the namespace or one of its ancestors |
| Auth.FirstMatchDecides | internal/auth/auth.go:114-144 | access is granted if and only if the first scope that matches grants it |
| Auth.RoleDecides | internal/auth/auth.go:92-145 | a role decides alone whatever the scopes, all default roles read and all but the viewer write; without a role no scopes mean everything and otherwise the first match decides |
| Auth.RootMeaning | internal/auth/auth.go:181-193 | unrestricted tokens and administrators are root tokens with access to everything; any other is one only by its metadata |
| Auth.MayRevokeExact | internal/auth/auth.go:196-219 | a token may be revoked exactly when it is stored and is no root token or another root token is stored |
| Auth.AppendingScopes | internal/auth/auth.go:92-144 | appending scopes refuses an allowed request if and only if the token had neither role nor scopes and the appended scopes do not grant it |
| Auth.AppendingCanRefuse | internal/auth/auth.go:92-144 | a concrete token for which it happens |
| Auth.RootSurvives | internal/auth/auth.go:196-219 | once a root token exists one exists after every sequence of atomic creations and revocations |
| Auth.UsableForever | internal/auth/auth.go:76-88 | a root token that validates is stored at all times if and only if some root token has no expiry |
| Auth.ExpiryIsFinal | internal/auth/auth.go:82-85 | a token that validates validates at every earlier time; it fails exactly after its expiry |
| Auth.StepKeepsPermanentRoot | internal/auth/auth.go:196-219 | an operation takes away the last root without an expiry exactly when it revokes it beside an expiring one |
| Auth.UsableRootSurvives | internal/auth/auth.go:196-219 | over every run that does not do that, a root token that validates exists at all times |
| Auth.LastUsableRootCanGo | internal/auth/auth.go:196-219 | two tokens and one revocation after which no root validates |
| Auth.CountIsCardinality | internal/auth/auth.go:203-212 | the counting loop counts the set of root tokens |
| Auth.Service.RevokeToken | internal/auth/auth.go:196-219 | removes exactly its target; refuses exactly unknown tokens and the last root token |
| Auth.Service.InitializeRootToken | internal/auth/auth.go:266-287 | succeeds exactly on an empty store and leaves one token, a root token that never expires |
| Auth.Service.GenerateToken | internal/auth/auth.go:35-73 | stores one token under its string that validates up to the given time after the clock reading, or always; refuses exactly unknown roles |
| Auth.Service.ValidateToken | internal/auth/auth.go:76-88 | accepts exactly the stored tokens without an expiry or with one not before now |
| Auth.Service.ListTokens | internal/storage/boltdb.go:391-407 | lists every stored token once, in key order |
| Audit.KeyOrderIsTimeOrder | internal/storage/boltdb.go:410-423 | among 19-digit timestamps the key order never contradicts the time order |
| Audit.FilteredIsNewestFirst | internal/storage/boltdb.go:426-458 | the filtered log holds every matching entry exactly once, newest first |
| Audit.FilteredExact | internal/storage/boltdb.go:440-442 | the filtered log holds exactly the stored entries of the asked namespace, or all if none is asked |
| Audit.FilteredCounts | internal/storage/boltdb.go:461-479 | it is as long as there are such entries |
| Audit.PageExact | internal/storage/boltdb.go:443-452 | a page holds the entries from the offset on, in order, as many as limit and log allow |
| Audit.LogKeyInjective | internal/storage/boltdb.go:414-415 | two entries share a key exactly when they agree on time and identifier |
| Audit.DecimalDenotes | internal/storage/boltdb.go:414-415 | the decimal timestamp in a key denotes the timestamp |
| Audit.PagesCoverLog | internal/storage/boltdb.go:426-458 | the pages at offsets 0, L, 2L, ... concatenate to the whole filtered log |
| Audit.HasMoreExact | internal/api/handlers.go:673-691 | the flag computed from the total holds exactly when the next page is not empty |
| Audit.NewerGoInFront | internal/storage/boltdb.go:410-423 | entries with newer keys come before all of the old filtered log and leave it as it was |
| Audit.NewerShiftPages | internal/storage/boltdb.go:426-458 | k newer matching entries shift every page by exactly k |
| Audit.LaterShiftPages | internal/storage/boltdb.go:410-458 | entries with later 19-digit timestamps are newer in this sense |
| Audit.EntryGoesBetween | internal/storage/boltdb.go:410-458 | an entry under a new key enters the filtered log at one place, if it matches, and leaves the rest as it was |
| Audit.ContinuedPagingNeverSkips | internal/storage/boltdb.go:426-458 | going on at the old offset after entries arrived in any key order still reads every entry not shown before |
| Audit.AuditLog.GetAuditLogs | internal/storage/boltdb.go:426-458 | the backward walk returns exactly the asked page of the log of the asked namespace, for every limit and offset |
| Audit.AuditLog.CountAuditLogs | internal/storage/boltdb.go:461-479 | counts exactly the stored entries of the asked namespace |
| Audit.AuditLog.HandleGetAuditLogs | internal/api/handlers.go:655-691 | clamps limit and offset, returns that page, and reports more exactly when the next page is not empty |
| Sse.Connection.WriteSSEEvent | internal/api/handlers.go:380-393 | appends one frame to the stream, or nothing if the event cannot be marshalled |
| Sse.WatchStream | pkg/client/client.go:325-359 | the line loop decodes exactly the payloads of the stream, in order |
| Sse.BlockEmitsItsData | pkg/client/client.go:333-352 | whatever lines a block has, the blank line after it emits the joined data of its data lines, if any, and leaves none behind |
| Sse.CarriageReturnDropped | pkg/client/client.go:328-329 | a carriage return before a line break is not part of the line |
| Sse.FitsExact | pkg/client/client.go:325-328 | a frame fits when each of its lines has at most 65535 bytes |
| Sse.CutStream | pkg/client/client.go:325-359 | wherever the stream is cut, the client reads exactly the payloads of the frames that arrived whole, up to the first one too long for its scanner |
| Sse.StreamRoundTrip | internal/api/handlers.go:380-393 | the client recovers exactly the payloads written if and only if every frame fits its scanner |
| Sse.CutStreamDelivers | pkg/client/client.go:337-353 | with a codec that round-trips, a cut connection delivers exactly a prefix of the events written |
| Sse.WholeStreamDelivers | pkg/client/client.go:325-359 | a stream read to its end delivers what the client makes of the greeting and then exactly the events |
| UiRoute.ResolveKvRest | internal/ui/static/app.js:757-770 | the scan, longest name first, selects the path itself if it is a known namespace, else its last segment under a known parent, for every list of names in every order |
| UiRoute.SortByLength | internal/ui/static/app.js:762 | a permutation of the names with no shorter name before a longer one |
| UiRoute.UrlRoundTrip | internal/ui/static/app.js:742-777 | with a known namespace the URL of a valid (namespace, key) reads back as that pair, for every list of names, if and only if `ns/key` is not a known namespace and the key is neither `.` nor `..` |
| UiRoute.NamespaceRoundTrip | internal/ui/static/app.js:742-777 | a namespace alone reads back as itself if and only if it is known, has one level, or its parent is unknown |
| UiRoute.ResolvedExact | internal/ui/static/app.js:757-770 | a known path selects itself, a key of a known namespace selects that, any other path itself as a namespace |
| UiRoute.EncodedSegments | internal/ui/static/app.js:772-777 | the address of any selection has one encoded segment for each segment of it |
| UiRoute.DecodedSegments | internal/ui/static/app.js:758-761 | decoding works segment by segment |
| UiRoute.CodecRoundTrip | internal/ui/static/app.js:757-777 | with a codec that round-trips, the address of any selection decodes to its path |
| UiRoute.PanelRoundTrip | internal/ui/static/app.js:742-752 | the address of every other panel reads back as that panel |

## Left out

- JSON encoding of entries and events: records are datatypes; in `Sse` a codec that round-trips is assumed.
- AES-GCM, PBKDF2, base64 and random generation: only the decrypt-after-encrypt law and fresh tokens are used.
- bbolt pages, files, open and close, and failing transactions: a bucket is an ordered map with atomic transactions.
- `CreateNamespace`, `ListNamespaces` and the public `GetNextVersion` of the storage: the engine's write path does not use them.
- The request middleware: it only looks a token up and passes it on.
- The role table beyond its read and write rows, and `HasPermission`: a finite lookup.
- Root safety under concurrent revocations: the check and the deletion are separate transactions, so the code does not give it.
- The order of events under concurrent writers: a handler notifies after its transaction, so it need not follow version order.
- Unbuffered channels: the server always asks for 10 or 100 places, and the protocol takes any positive capacity.
- Event timestamps, which `Notify` stamps and no reader here uses; long-poll timeouts; flushing and headers.
- WatchManager.Manager.Unwatch: keeps closed channels as values in a ghost history and leaves out the context it cancels; both are steps in `WatchProtocol`.
- Auth.Service.GenerateToken: requires a token string not in use, because the random draw is taken to be fresh.
- WatchManager.Manager.Watch: requires the formatted second to have 14 characters, which it has for every four-digit year; the wrap-around of the 64-bit counter is left out.
- The long poll, which answers with the first event it receives: only its registration is modelled.
- Server.StreamedReplica: requires every event to survive marshalling and every frame to fit the scanner; what happens otherwise is in `Sse.CutStream`.
- `watchLoop` of the cache, which reloads when its long poll answers: a change that arrives between two polls stays unseen until a later event, so nothing is claimed of the cache between reloads.
- Engine.Engine.DeleteNamespace: runs its three transactions without another write in between, as all runs here are serial.
- Overlapping reloads of one cache, and caches of namespaces with children: entries are keyed by bare key and the last one wins.
- The `done` channel of the client's stream: closing it only ends the loop early.
- Cleaning of request paths by the HTTP router, query parsing and audit logging inside the handlers.
- `looksLikeKeyName` on non-ASCII names: case folding is modelled for ASCII letters only.
- Other panels, selection state and rendering of the web UI.
- UiRoute.UrlRoundTrip: does not count `%2e` as a dot segment, because no path built from a valid name contains `%`.
