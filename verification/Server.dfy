/** The request handlers: access check, engine operation, then notification of the watchers. */
module Server {
  import opened Wrappers
  import opened ByteOrder
  import opened Names
  import opened Store
  import opened Engine
  import opened Channels
  import opened WatchManager
  import opened Replay
  import opened Auth
  import opened Routes
  import Sse

  datatype Response =
    | Entry(entry: KVEntry)
    | VersionRecord(version: Version)
    | Versions(versions: seq<Version>)
    | Listing(entries: seq<KVEntry>)
    | Deleted
    | DeletedKeys(keys: seq<string>)
    | Forbidden
    | NotFound
    | BadRequest
    | Failed(error: Error)

  function DeliverToAll(ws: map<string, Channel>, es: seq<Event>): map<string, Channel> {
    map id | id in ws :: DeliverAll(ws[id], es)
  }

  /** For every registered watcher but "*": the listing taken at its registration, folded with
      all events offered to it since, is the current listing. */
  ghost predicate Mirrors(ws: map<string, Channel>, base: map<string, Replica>, s: Store) {
    forall id | id in ws && ws[id].ns != "*" ::
      id in base && Fold(base[id], Attempted(ws[id].attempts)) == LiveMap(s, ws[id].ns)
  }

  lemma DeliveryKeepsMirrors(ws: map<string, Channel>, base: map<string, Replica>, s: Store, op: Op)
    requires Mirrors(ws, base, s) && EngineOp(op)
    ensures Mirrors(DeliverToAll(ws, EventsOf(s, op)), base, Step(s, op))
  {
    var es := EventsOf(s, op);
    forall id | id in ws && ws[id].ns != "*"
      ensures id in base
      ensures Fold(base[id], Attempted(DeliverAll(ws[id], es).attempts)) == LiveMap(Step(s, op), ws[id].ns)
    {
      DeliverAllOffersMatching(ws[id], es);
      FoldConcat(base[id], Attempted(ws[id].attempts), Matching(ws[id].ns, es));
      StepReplay(s, op, ws[id].ns);
    }
    forall id | id in ws ensures DeliverAll(ws[id], es).ns == ws[id].ns { DeliverAllOffersMatching(ws[id], es); }
  }

  /** A watcher none of whose sends was dropped can rebuild the namespace from what it
      received and what is still buffered. */
  lemma NoDropMeansReplica(ws: map<string, Channel>, base: map<string, Replica>, s: Store, id: string)
    requires Mirrors(ws, base, s) && id in ws && ws[id].ns != "*"
    requires ChannelOk(ws[id]) && Dropped(ws[id].attempts, ws[id].cap) == 0
    ensures id in base && Fold(base[id], ws[id].Seen()) == LiveMap(s, ws[id].ns)
  {
    QueueConservation(ws[id]);
  }

  /** From store to stream client: once the handler has written what was buffered, and with no
      send dropped, a client that folds what it reads from the stream over the listing at
      registration holds exactly what List answers now. The greeting reaches the client as an
      event without a known action. */
  lemma StreamedReplica(ws: map<string, Channel>, base: map<string, Replica>, s: Store, id: string, now: seq<KVEntry>,
                        conn: Sse.Connection, greeting: Sse.Frame, encode: Event -> Option<string>,
                        decode: string -> Option<Event>)
    requires WellFormed(s) && Mirrors(ws, base, s) && id in ws && ws[id].ns != "*" && IsListing(s, ws[id].ns, now)
    requires ChannelOk(ws[id]) && Dropped(ws[id].attempts, ws[id].cap) == 0
    requires Streams(conn, ws, id, greeting, encode) && ws[id].buffer == []
    requires Sse.AllFramed(conn.frames) && Sse.AllFit(conn.frames) && Sse.AllCarried(encode, decode, ws[id].received)
    requires decode(greeting.payload).Some? ==> decode(greeting.payload).value.action.NoAction?
    ensures id in base
    ensures Fold(base[id], Sse.Decoded(decode, Sse.Payloads(conn.sent))) == FromListing(now)
  {
    NoDropMeansReplica(ws, base, s, id);
    assert ws[id].Seen() == ws[id].received;
    Sse.WholeStreamDelivers(greeting, ws[id].received, encode, decode);
    FoldAfterGreeting(base[id], Sse.DecodedOne(decode, greeting.payload), ws[id].received);
    ListingIsLiveMap(s, ws[id].ns, now);
  }

  lemma FoldAfterGreeting(r: Replica, hello: seq<Event>, es: seq<Event>)
    requires |hello| <= 1 && forall e | e in hello :: e.action.NoAction?
    ensures Fold(r, hello + es) == Fold(r, es)
  {
    FoldConcat(r, hello, es);
    if hello != [] {
      assert hello[..0] == [];
      assert Fold(r, hello) == ApplyEvent(Fold(r, []), hello[0]);
    }
  }

  /** The connection carries the greeting and one frame for each event read from the channel
      of `id`; an event that cannot be marshalled has none. */
  ghost predicate Streams(conn: Sse.Connection, ws: map<string, Channel>, id: string, greeting: Sse.Frame,
                          encode: Event -> Option<string>)
    reads conn
  {
    conn.Valid() && CarriesReceived(conn.frames, ws, id, greeting, encode)
  }

  ghost predicate CarriesReceived(frames: seq<Sse.Frame>, ws: map<string, Channel>, id: string, greeting: Sse.Frame,
                                  encode: Event -> Option<string>)
  {
    id in ws && frames == [greeting] + Sse.EventFrames(encode, ws[id].received)
  }

  lemma CarriesNext(frames: seq<Sse.Frame>, ws: map<string, Channel>, id: string, greeting: Sse.Frame,
                    encode: Event -> Option<string>)
    requires CarriesReceived(frames, ws, id, greeting, encode) && ws[id].buffer != []
    ensures CarriesReceived(frames + Sse.FramesOf("change", encode(ws[id].buffer[0])),
                            ws[id := ws[id].Receive()], id, greeting, encode)
  {
    Sse.EventFramesStep(encode, ws[id].received, ws[id].buffer[0]);
  }

  /** Writes and their notifications leave every stream as it is. */
  lemma DeliveryKeepsStreams(conn: Sse.Connection, ws: map<string, Channel>, es: seq<Event>, id: string,
                             greeting: Sse.Frame, encode: Event -> Option<string>)
    requires Streams(conn, ws, id, greeting, encode)
    ensures Streams(conn, DeliverToAll(ws, es), id, greeting, encode)
  {
    DeliverAllOffersMatching(ws[id], es);
  }

  lemma DeliverOne(ws: map<string, Channel>, es: seq<Event>, e: Event)
    ensures DeliverToAll(ws, es + [e]) == Delivered(DeliverToAll(ws, es), e)
    ensures DeliverToAll(ws, []) == ws
  {
    assert (es + [e])[..|es + [e]| - 1] == es;
  }

  /** One event delivered to all watchers, written out. */
  lemma DeliverOneWrites(ws: map<string, Channel>, e: Event)
    ensures DeliverToAll(ws, [e]).Keys == ws.Keys
    ensures forall id | id in ws ::
      var ch, t, matches := ws[id], DeliverToAll(ws, [e])[id], MatchesNamespace(ws[id].ns, e.namespace);
      && t.buffer == ch.buffer + (if matches && |ch.buffer| < ch.cap then [e] else [])
      && t.attempts == ch.attempts + (if matches then [Attempt(e, |ch.buffer|)] else [])
      && t.received == ch.received && t.ns == ch.ns && t.cap == ch.cap && t.open == ch.open
  {
    DeliverOne(ws, [], e);
    assert [] + [e] == [e];
    DeliveredWrites(ws, e);
  }

  lemma KeyListIsSorted(s: Store, ns: string, keys: seq<string>)
    requires IsKeyList(s, ns, keys)
    ensures keys == SortedKeys(LiveKeys(s, ns))
  {
    SortedKeysAscending(LiveKeys(s, ns));
    forall k ensures k in keys <==> k in SortedKeys(LiveKeys(s, ns)) {
      assert Live(s, (ns, k)) ==> (ns, k).1 in LiveKeys(s, ns);
    }
    AscendingUnique(keys, SortedKeys(LiveKeys(s, ns)));
  }

  class Server {
    const engine: Engine
    const watch: Manager

    /** What was live in its namespace when each watcher registered. */
    ghost var base: map<string, Replica>

    ghost predicate Valid()
      reads this, watch, engine.storage
    {
      engine.Valid() && watch.Valid() && Mirrors(watch.watchers, base, engine.View())
    }

    constructor (engine: Engine, watch: Manager)
      requires engine.Valid() && watch.Valid() && watch.watchers == map[]
      ensures Valid() && this.engine == engine && this.watch == watch
    {
      this.engine, this.watch, this.base := engine, watch, map[];
    }

    method HandleSetKey(token: Token, ns: string, key: string, value: string, kind: EntryType,
                        metadata: map<string, string>, created: Time, nonce: string, clock: Clock)
      returns (r: Response)
      requires Valid() && |History(engine.View(), (ns, key))| < MAX_INT64
      modifies watch, engine.storage
      ensures Valid()
      ensures r == Forbidden <==> !HasAccess(token, ns, true)
      ensures r.Entry? || r.Forbidden? || r.Failed?
      ensures r.Entry? <==> (HasAccess(token, ns, true) && ValidNamespace(ns) && ValidKey(key)
        && (kind.Secret? ==> engine.crypto.enc(value, nonce).Some?))
      ensures var op := Op.Set(KVEntry(ns, key, value, kind, 0, created, created, metadata, false), clock);
        if r.Entry? then
          && engine.View() == Step(old(engine.View()), op)
          && watch.watchers == DeliverToAll(old(watch.watchers), EventsOf(old(engine.View()), op))
          && Live(engine.View(), (ns, key)) && r.entry == engine.View().cells[(ns, key)].Current()
          && watch.watchers == DeliverToAll(old(watch.watchers), [Event(SetAction, ns, key, Some(r.entry))])
        else engine.View() == old(engine.View()) && watch.watchers == old(watch.watchers)
    {
      if !HasAccess(token, ns, true) {
        return Forbidden;
      }
      ghost var s, ws := engine.View(), watch.watchers;
      ghost var op := Op.Set(KVEntry(ns, key, value, kind, 0, created, created, metadata, false), clock);
      var entry := engine.Set(ns, key, value, kind, metadata, created, nonce, clock);
      if entry.Err? {
        return Failed(entry.error);
      }
      watch.Notify(SetEvent(entry.value));
      DeliverOne(ws, [], SetEvent(entry.value));
      assert [] + [SetEvent(entry.value)] == EventsOf(s, op);
      DeliveryKeepsMirrors(ws, base, s, op);
      r := Entry(entry.value);
    }

    method HandleDeleteKey(token: Token, ns: string, key: string, now: Time) returns (r: Response)
      requires Valid() && '/' !in key
      modifies watch, engine.storage
      ensures Valid()
      ensures r == if !HasAccess(token, ns, true) then Forbidden
                   else if (ns, key) in old(engine.View()).cells then Deleted else NotFound
      ensures var op := Op.Delete((ns, key), now);
        if r.Deleted? then
          && engine.View() == Step(old(engine.View()), op)
          && watch.watchers == DeliverToAll(old(watch.watchers), EventsOf(old(engine.View()), op))
          && watch.watchers == DeliverToAll(old(watch.watchers), [Event(DeleteAction, ns, key, None)])
        else engine.View() == old(engine.View()) && watch.watchers == old(watch.watchers)
    {
      if !HasAccess(token, ns, true) {
        return Forbidden;
      }
      ghost var s, ws, op := engine.View(), watch.watchers, Op.Delete((ns, key), now);
      var deleted := engine.Delete(ns, key, now);
      if deleted.Err? {
        return NotFound;
      }
      watch.Notify(DeleteEvent(ns, key));
      DeliverOne(ws, [], DeleteEvent(ns, key));
      assert [] + [DeleteEvent(ns, key)] == EventsOf(s, op);
      DeliveryKeepsMirrors(ws, base, s, op);
      r := Deleted;
    }

    /** The notification loop of HandleDeleteNamespace. */
    method NotifyDeletes(ns: string, keys: seq<string>)
      requires watch.Valid()
      modifies watch
      ensures watch.Valid() && watch.watchers == DeliverToAll(old(watch.watchers), DeleteEvents(ns, keys))
    {
      ghost var ws := watch.watchers;
      var i := 0;
      DeliverOne(ws, [], DeleteEvent(ns, ""));
      while i < |keys|
        invariant 0 <= i <= |keys|
        invariant watch.Valid() && watch.watchers == DeliverToAll(ws, DeleteEvents(ns, keys[..i]))
      {
        watch.Notify(DeleteEvent(ns, keys[i]));
        DeliverOne(ws, DeleteEvents(ns, keys[..i]), DeleteEvent(ns, keys[i]));
        assert DeleteEvents(ns, keys[..i]) + [DeleteEvent(ns, keys[i])] == DeleteEvents(ns, keys[..i + 1]);
        i := i + 1;
      }
      assert keys[..|keys|] == keys;
    }

    method HandleDeleteNamespace(token: Token, ns: string) returns (r: Response)
      requires Valid()
      modifies watch, engine.storage
      ensures Valid()
      ensures r.DeletedKeys? <==> HasAccess(token, ns, true) && ns in old(engine.View()).namespaces
      ensures !HasAccess(token, ns, true) ==> r == Forbidden
      ensures HasAccess(token, ns, true) && !r.DeletedKeys? ==>
        if ValidNamespace(ns) then r == NotFound else r == Failed(InvalidNamespace)
      ensures var op := Op.DeleteNamespace(ns);
        if r.DeletedKeys? then
          && engine.View() == Step(old(engine.View()), op)
          && watch.watchers == DeliverToAll(old(watch.watchers), EventsOf(old(engine.View()), op))
          && IsKeyList(old(engine.View()), ns, r.keys)
        else engine.View() == old(engine.View()) && watch.watchers == old(watch.watchers)
    {
      if !HasAccess(token, ns, true) {
        return Forbidden;
      }
      ghost var s, ws, op := engine.View(), watch.watchers, Op.DeleteNamespace(ns);
      var deleted := engine.DeleteNamespace(ns);
      if deleted.Err? {
        return if deleted.error == NamespaceNotFound then NotFound else Failed(deleted.error);
      }
      KeyListIsSorted(s, ns, deleted.value);
      NotifyDeletes(ns, deleted.value);
      DeliveryKeepsMirrors(ws, base, s, op);
      r := DeletedKeys(deleted.value);
    }

    /** Registers a watcher; `stamp` is the formatted second of its identifier. */
    method HandleWatch(token: Token, ns: string, bufferSize: nat, stamp: string) returns (id: Option<string>)
      requires Valid() && |stamp| == 14
      modifies this`base, watch
      ensures Valid()
      ensures id.Some? <==> HasAccess(token, ns, false)
      ensures id.None? ==> watch.watchers == old(watch.watchers)
      ensures id.Some? ==>
        && (FreshNumber(old(watch.watcherCounter) + 1) ==> id.value !in old(watch.watchers))
        && watch.watchers == old(watch.watchers)[id.value := NewChannel(ns, bufferSize)]
        && watch.watchers[id.value] == Channel(ns, bufferSize, true, [], [], [])
        && base == old(base)[id.value := LiveMap(engine.View(), ns)]
        && forall entries | IsListing(engine.View(), ns, entries) :: base[id.value] == FromListing(entries)
    {
      if !HasAccess(token, ns, false) {
        return None;
      }
      var watcher := watch.Watch(ns, bufferSize, stamp);
      base := base[watcher := LiveMap(engine.View(), ns)];
      assert Attempted(NewChannel(ns, bufferSize).attempts) == [];
      Secrets.RevealWellFormed(engine.crypto, engine.storage.model);
      forall entries | IsListing(engine.View(), ns, entries)
        ensures LiveMap(engine.View(), ns) == FromListing(entries)
      {
        ListingIsLiveMap(engine.View(), ns, entries);
      }
      id := Some(watcher);
    }

    /** The start of a stream: registration, then the greeting. */
    method OpenStream(token: Token, ns: string, stamp: string, conn: Sse.Connection, greeting: string,
                      ghost encode: Event -> Option<string>)
      returns (id: Option<string>)
      requires Valid() && |stamp| == 14 && conn.Valid() && conn.frames == []
      modifies this`base, watch, conn
      ensures Valid()
      ensures id.Some? <==> HasAccess(token, ns, false)
      ensures id.Some? ==>
        && Streams(conn, watch.watchers, id.value, Sse.Frame("connected", greeting), encode)
        && watch.watchers == old(watch.watchers)[id.value := NewChannel(ns, 100)]
        && watch.watchers[id.value] == Channel(ns, 100, true, [], [], [])
        && base == old(base)[id.value := LiveMap(engine.View(), ns)]
    {
      id := HandleWatch(token, ns, 100, stamp);
      if id.Some? {
        conn.WriteSSEEvent("connected", Some(greeting));
      }
    }

    /** One round of the loop of handleWatchSSE: an event read from the channel is written as
        one frame. */
    method WriteNext(id: string, conn: Sse.Connection, ghost greeting: Sse.Frame, encode: Event -> Option<string>)
      requires Valid() && Streams(conn, watch.watchers, id, greeting, encode) && watch.watchers[id].buffer != []
      modifies watch`watchers, conn
      ensures Valid() && Streams(conn, watch.watchers, id, greeting, encode)
      ensures watch.watchers == old(watch.watchers)[id := old(watch.watchers)[id].Receive()]
    {
      CarriesNext(conn.frames, watch.watchers, id, greeting, encode);
      var event := Receive(id);
      conn.WriteSSEEvent("change", encode(event));
    }

    /** The loop while events are waiting: it ends with everything written that was offered
        and found room. */
    method WriteWaiting(id: string, conn: Sse.Connection, ghost greeting: Sse.Frame, encode: Event -> Option<string>)
      requires Valid() && Streams(conn, watch.watchers, id, greeting, encode)
      modifies watch`watchers, conn
      ensures Valid() && Streams(conn, watch.watchers, id, greeting, encode)
      ensures watch.watchers == old(watch.watchers)[id := old(watch.watchers)[id].Drained()]
    {
      ghost var ws := watch.watchers;
      while watch.watchers[id].buffer != []
        invariant Valid() && Streams(conn, watch.watchers, id, greeting, encode)
        invariant watch.watchers == ws[id := watch.watchers[id]] && watch.watchers[id].Drained() == ws[id].Drained()
        decreases |watch.watchers[id].buffer|
      {
        ReceiveDrains(watch.watchers[id]);
        WriteNext(id, conn, greeting, encode);
      }
      assert watch.watchers[id] == watch.watchers[id].Drained();
    }

    /** What both watch handlers defer: the watcher goes, the others keep their mirrors. */
    method Unwatch(id: string)
      requires Valid()
      modifies watch
      ensures Valid() && watch.watchers == old(watch.watchers) - {id}
    {
      watch.Unwatch(id);
    }

    method Receive(id: string) returns (event: Event)
      requires Valid() && id in watch.watchers && watch.watchers[id].buffer != []
      modifies watch`watchers
      ensures Valid()
      ensures event == old(watch.watchers)[id].buffer[0]
      ensures watch.watchers == old(watch.watchers)[id := old(watch.watchers)[id].Receive()]
    {
      event := watch.Receive(id);
    }

    /** handleListKeys: the key the path names, or a listing of the path. `version` is the
        query parameter: absent, not a number, or a number. */
    method HandleListKeys(token: Token, path: string, version: Option<Option<int>>) returns (r: Response)
      requires engine.Valid() && (version.Some? && version.value.Some? ==> Int64(version.value.value))
      ensures version.None? ==> Decision(engine.View(), token, path, r)
      ensures version.None? ==> PathResolved(engine.View(), token, path, r)
      ensures version.Some? ==> VersionResolved(engine.View(), token, path, version.value, r)
      ensures version.None? ==> (r.Entry? <==>
        && |Split(path)| >= 2 && HasAccess(token, ParentPath(path), false)
        && Live(engine.View(), (ParentPath(path), LastSegment(path))))
      ensures version.None? && r.Entry? ==>
        r.entry == engine.View().cells[(ParentPath(path), LastSegment(path))].Current()
      ensures version.None? ==> (r == NotFound <==>
        && |Split(path)| >= 2 && HasAccess(token, ParentPath(path), false) && !r.Entry?
        && path !in engine.View().namespaces && LooksLikeKeyName(LastSegment(path)))
      ensures version.None? && !r.Entry? && r != NotFound ==>
        if HasAccess(token, path, false) then r.Listing? && IsListing(engine.View(), path, r.entries)
        else r == Forbidden
      ensures version.Some? && |Split(path)| >= 2 && HasAccess(token, ParentPath(path), false) ==>
        var h := History(engine.View(), (ParentPath(path), LastSegment(path)));
        && (r.BadRequest? <==> version.value.None?)
        && (version.value.Some? ==>
              var v := version.value.value;
              if 1 <= v <= |h| then r == VersionRecord(h[v - 1]) && r.version.version == v else r == NotFound)
    {
      Secrets.RevealWellFormed(engine.crypto, engine.storage.model);
      assert |Split(path)| >= 2 ==> CellOk(engine.View(), (ParentPath(path), LastSegment(path)));
      ghost var s := engine.View();
      if |Split(path)| >= 2 && HasAccess(token, ParentPath(path), false) && version.Some? {
        SegmentsHaveNoSlash(path, |Split(path)| - 1);
        if version.value.None? {
          r := BadRequest;
        } else {
          var record := engine.GetVersion(ParentPath(path), LastSegment(path), version.value.value);
          r := if record.Ok? then VersionRecord(record.value) else NotFound;
        }
        VersionDecided(s, token, path, version.value, r);
        return;
      }
      r := GetOrList(token, path);
      if version.None? { Decided(s, token, path, r); } else { NoVersionDecided(s, token, path, version.value); }
    }

    /** The part of handleListKeys that does not look at a version. */
    method GetOrList(token: Token, path: string) returns (r: Response)
      requires engine.Valid()
      ensures Decision(engine.View(), token, path, r)
      ensures r.Entry? <==>
        && |Split(path)| >= 2 && HasAccess(token, ParentPath(path), false)
        && Live(engine.View(), (ParentPath(path), LastSegment(path)))
      ensures r.Entry? ==> r.entry == engine.View().cells[(ParentPath(path), LastSegment(path))].Current()
      ensures r == NotFound <==>
        && |Split(path)| >= 2 && HasAccess(token, ParentPath(path), false) && !r.Entry?
        && path !in engine.View().namespaces && LooksLikeKeyName(LastSegment(path))
      ensures !r.Entry? && r != NotFound ==>
        if HasAccess(token, path, false) then r.Listing? && IsListing(engine.View(), path, r.entries)
        else r == Forbidden
    {
      var segments := Split(path);
      if |segments| >= 2 {
        var ns, key := ParentPath(path), LastSegment(path);
        SegmentsHaveNoSlash(path, |segments| - 1);
        if HasAccess(token, ns, false) {
          var entry := engine.Get(ns, key);
          if entry.Ok? {
            return Entry(entry.value);
          }
          var known := engine.GetNamespace(path);
          if known.Err? && LooksLikeKeyName(key) {
            return NotFound;
          }
        }
      }
      if !HasAccess(token, path, false) {
        return Forbidden;
      }
      var entries := engine.List(path);
      r := Listing(entries);
    }

    /** GET below /v1/kv/: routing, then the handler. */
    method ServeGet(token: Token, path: string) returns (r: Response)
      requires engine.Valid()
      ensures Served(engine.View(), token, path, r)
      ensures RouteGet(path).KeyOrListing? ==> PathResolved(engine.View(), token, path, r)
      ensures match RouteGet(path)
        case KeyOrListing(_) => true
        case KeyVersions(ns, key) =>
          r == if HasAccess(token, ns, false) then Versions(History(engine.View(), (ns, key))) else Forbidden
      ensures RouteGet(path).KeyOrListing? ==> (r.Entry? <==>
        && |Split(path)| >= 2 && HasAccess(token, ParentPath(path), false)
        && Live(engine.View(), (ParentPath(path), LastSegment(path))))
      ensures RouteGet(path).KeyOrListing? && r.Entry? ==>
        r.entry == engine.View().cells[(ParentPath(path), LastSegment(path))].Current()
      ensures RouteGet(path).KeyOrListing? ==> (r == NotFound <==>
        && |Split(path)| >= 2 && HasAccess(token, ParentPath(path), false) && !r.Entry?
        && path !in engine.View().namespaces && LooksLikeKeyName(LastSegment(path)))
      ensures RouteGet(path).KeyOrListing? && !r.Entry? && r != NotFound ==>
        if HasAccess(token, path, false) then r.Listing? && IsListing(engine.View(), path, r.entries)
        else r == Forbidden
      ensures forall c: Name |
        ValidNamespace(c.0) && ValidKey(c.1) && path == KVKey(c.0, c.1) + "/versions" && HasAccess(token, c.0, false) ::
        r == Versions(History(engine.View(), c))
      ensures forall c: Name |
        PathNames(engine.View(), path, c) && !HiddenByVersions(c) && HasAccess(token, c.0, false) ::
        r == Entry(engine.View().cells[c].Current())
      ensures forall c: Name |
        PathNames(engine.View(), path, c) && HiddenByVersions(c) && HasAccess(token, ParentPath(c.0), false) ::
        r == Versions(History(engine.View(), (ParentPath(c.0), LastSegment(c.0))))
    {
      forall c: Name | ValidNamespace(c.0) && ValidKey(c.1) && path == KVKey(c.0, c.1) + "/versions"
        ensures RouteGet(path) == KeyVersions(c.0, c.1)
      {
        PathOfHistory(c.0, c.1);
      }
      assert WellFormed(engine.storage.model);
      forall c: Name | PathNames(engine.View(), path, c)
        ensures RouteGet(path) ==
          if HiddenByVersions(c) then KeyVersions(ParentPath(c.0), LastSegment(c.0)) else KeyOrListing(path)
      {
        assert CellOk(engine.storage.model, c);
        PathOfKeyReachesHandler(c.0, c.1);
      }
      match RouteGet(path)
      case KeyVersions(ns, key) =>
        if !HasAccess(token, ns, false) {
          return Forbidden;
        }
        SegmentsHaveNoSlash(path, |Split(path)| - 2);
        var versions := engine.GetVersions(ns, key);
        r := Versions(versions);
      case KeyOrListing(p) =>
        r := HandleListKeys(token, p, None);
    }
  }

  /** The path names the live key `c`. */
  predicate PathNames(s: Store, path: string, c: Name) {
    '/' !in c.1 && path == KVKey(c.0, c.1) && Live(s, c)
  }

  /** A key called `versions` below the first level is shadowed by the versions route. */
  predicate HiddenByVersions(c: Name) { c.1 == "versions" && |Split(c.0)| >= 2 }

  /** What a GET without version parameter must answer. A path names its live key if there is
      one; otherwise, to a caller who may read both the path and its parent, it lists when it
      is a namespace, has no parent or does not end like a key; otherwise it is not found. */
  ghost predicate PathResolved(s: Store, token: Token, path: string, r: Response) {
    && (forall c | PathNames(s, path, c) && HasAccess(token, c.0, false) :: r == Entry(s.cells[c].Current()))
    && ((forall c :: !PathNames(s, path, c)) && HasAccess(token, path, false)
        && (|Split(path)| >= 2 ==> HasAccess(token, ParentPath(path), false)) ==>
          if path in s.namespaces || |Split(path)| == 1 || !LooksLikeKeyName(LastSegment(path))
          then r.Listing? && IsListing(s, path, r.entries)
          else r == NotFound)
  }

  /** Right after a set its path names the value set, and a GET of that path reaches the key
      handler unless the versions route shadows it. */
  lemma SetIsServed(s: Store, e: KVEntry, clock: Clock)
    requires ValidNamespace(e.namespace) && ValidKey(e.key) && !e.isDeleted
    ensures var c, path, t := (e.namespace, e.key), KVKey(e.namespace, e.key), Step(s, Op.Set(e, clock));
      && PathNames(t, path, c)
      && t.cells[c].Current().value == e.value && t.cells[c].Current().version == |History(s, c)| + 1
      && (RouteGet(path) == KeyOrListing(path) <==> !HiddenByVersions(c))
  {
    ValidNameFacts(e.namespace, e.key);
    PathOfKeyReachesHandler(e.namespace, e.key);
  }

  /** What a GET with a version parameter must answer to a caller who may read the key the
      path names: that record of that key, deleted or not. */
  ghost predicate VersionResolved(s: Store, token: Token, path: string, version: Option<int>, r: Response) {
    forall c: Name | '/' !in c.1 && path == KVKey(c.0, c.1) && HasAccess(token, c.0, false) ::
      r == RecordOf(History(s, c), version)
  }

  function RecordOf(h: seq<Version>, version: Option<int>): Response {
    match version
    case None => BadRequest
    case Some(v) => if 1 <= v <= |h| then VersionRecord(h[v - 1]) else NotFound
  }

  /** The caller may read the parent of the path. */
  predicate MayTryKey(token: Token, path: string) { |Split(path)| >= 2 && HasAccess(token, ParentPath(path), false) }

  function SplitName(path: string): Name
    requires |Split(path)| >= 2
  {
    (ParentPath(path), LastSegment(path))
  }

  /** The outcome in the terms of the split at the last slash. */
  ghost predicate Decision(s: Store, token: Token, path: string, r: Response) {
    if MayTryKey(token, path) && Live(s, SplitName(path)) then r == Entry(s.cells[SplitName(path)].Current())
    else if MayTryKey(token, path) && path !in s.namespaces && LooksLikeKeyName(LastSegment(path)) then r == NotFound
    else if !HasAccess(token, path, false) then r == Forbidden
    else r.Listing? && IsListing(s, path, r.entries)
  }

  /** The outcome of a GET below /v1/kv/, for every caller. */
  ghost predicate Served(s: Store, token: Token, path: string, r: Response) {
    match RouteGet(path)
    case KeyVersions(ns, key) => r == if HasAccess(token, ns, false) then Versions(History(s, (ns, key))) else Forbidden
    case KeyOrListing(p) => Decision(s, token, p, r)
  }

  lemma PathNamesOne(path: string, c: Name)
    requires '/' !in c.1
    ensures path == KVKey(c.0, c.1) <==> |Split(path)| >= 2 && SplitName(path) == c
    ensures |Split(path)| >= 2 ==> '/' !in SplitName(path).1
  {
    SplitUndoesKVKey(path, c.0, c.1);
    SegmentsHaveNoSlash(path, |Split(path)| - 1);
  }

  lemma Decided(s: Store, token: Token, path: string, r: Response)
    requires Decision(s, token, path, r)
    ensures PathResolved(s, token, path, r)
  {
    forall c: Name | '/' !in c.1 ensures path == KVKey(c.0, c.1) <==> |Split(path)| >= 2 && SplitName(path) == c {
      PathNamesOne(path, c);
    }
    PathNamesOne(path, ("", ""));
    assert |Split(path)| >= 2 ==> (Live(s, SplitName(path)) <==> PathNames(s, path, SplitName(path)));
  }

  lemma VersionDecided(s: Store, token: Token, path: string, version: Option<int>, r: Response)
    requires |Split(path)| >= 2 && r == RecordOf(History(s, SplitName(path)), version)
    ensures VersionResolved(s, token, path, version, r)
  {
    forall c: Name | '/' !in c.1 && path == KVKey(c.0, c.1) ensures SplitName(path) == c { PathNamesOne(path, c); }
  }

  /** A path with no readable parent names no key the caller may read. */
  lemma NoVersionDecided(s: Store, token: Token, path: string, version: Option<int>)
    requires !MayTryKey(token, path)
    ensures forall r :: VersionResolved(s, token, path, version, r)
  {
    forall c: Name | '/' !in c.1 && path == KVKey(c.0, c.1) ensures !HasAccess(token, c.0, false) {
      PathNamesOne(path, c);
    }
  }
}
