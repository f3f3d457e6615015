/** CachedClient: the cache a client rebuilds from a listing and the change callbacks it fires. */
module ClientCache {
  import opened Wrappers
  import opened Names
  import opened Store
  import opened Secrets
  import opened Auth
  import opened Routes
  import opened Server

  type Cache = map<string, KVEntry>

  /** Callback number `callback` started with (key, value). */
  datatype Call = Call(callback: nat, key: string, value: string)

  /** The cache built from a listing: entries by bare key, the last one wins. */
  function ByKey(entries: seq<KVEntry>): Cache {
    if entries == [] then map[] else
    ByKey(entries[..|entries| - 1])[entries[|entries| - 1].key := entries[|entries| - 1]]
  }

  lemma {:induction false} CachedKeys(entries: seq<KVEntry>, k: string)
    ensures k in ByKey(entries) <==> exists i :: 0 <= i < |entries| && entries[i].key == k
  {
    if entries != [] {
      var n := |entries| - 1;
      CachedKeys(entries[..n], k);
      assert entries[n].key == k ==> k in ByKey(entries);
    }
  }

  /** The last listed entry of a key wins. */
  lemma {:induction false} LastEntryWins(entries: seq<KVEntry>, i: nat)
    requires i < |entries| && forall j | i < j < |entries| :: entries[j].key != entries[i].key
    ensures entries[i].key in ByKey(entries) && ByKey(entries)[entries[i].key] == entries[i]
  {
    if i < |entries| - 1 { LastEntryWins(entries[..|entries| - 1], i); }
  }

  // ---- The callback delta ----

  predicate Changed(old_: Cache, new_: Cache, k: string) {
    if k in new_ then k !in old_ || old_[k].version != new_[k].version else k in old_
  }

  function ValueOf(c: Cache, k: string): string { if k in c then c[k].value else "" }

  /** `calls` starts each of `n` callbacks exactly once per changed key, with its new value. */
  ghost predicate IsDelta(old_: Cache, new_: Cache, n: nat, calls: seq<Call>) {
    && (forall c :: c in calls <==> c.callback < n && Changed(old_, new_, c.key) && c.value == ValueOf(new_, c.key))
    && (forall i, j | 0 <= i < j < |calls| :: calls[i] != calls[j])
  }

  /** A reader that applies its callback's arguments to a map it keeps. */
  function Apply(m: map<string, string>, calls: seq<Call>, callback: nat): map<string, string> {
    if calls == [] then m else
    var last := calls[|calls| - 1];
    var before := Apply(m, calls[..|calls| - 1], callback);
    if last.callback == callback then before[last.key := last.value] else before
  }

  function Read(m: map<string, string>, k: string): string { if k in m then m[k] else "" }

  function Values(c: Cache): map<string, string> { map k | k in c :: c[k].value }

  lemma {:induction false} AppliedValue(m: map<string, string>, calls: seq<Call>, callback: nat, k: string, v: string)
    requires forall c | c in calls && c.callback == callback && c.key == k :: c.value == v
    ensures Read(Apply(m, calls, callback), k) == if Call(callback, k, v) in calls then v else Read(m, k)
  {
    if calls != [] {
      var pre, last := calls[..|calls| - 1], calls[|calls| - 1];
      AppliedValue(m, pre, callback, k, v);
      assert last in calls;
      assert Call(callback, k, v) in calls <==> Call(callback, k, v) in pre || last == Call(callback, k, v);
    }
  }

  /** No key kept its version while its value changed. */
  ghost predicate NoSilentChange(old_: Cache, new_: Cache) {
    forall k | k in old_ && k in new_ && old_[k].version == new_[k].version :: old_[k].value == new_[k].value
  }

  /** The delta is order-free: applied to the old values in any order, missing keys read as
      empty, the calls of one callback give exactly the new values if and only if no value
      changed under an unchanged version number. */
  lemma DeltaOrderFree(old_: Cache, new_: Cache, n: nat, calls: seq<Call>, order: seq<Call>, callback: nat)
    requires IsDelta(old_, new_, n, calls) && callback < n
    requires forall c :: c in order <==> c in calls
    ensures (forall k :: Read(Apply(Values(old_), order, callback), k) == Read(Values(new_), k))
      <==> NoSilentChange(old_, new_)
  {
    var m := Apply(Values(old_), order, callback);
    forall k ensures Read(m, k) == if Changed(old_, new_, k) then ValueOf(new_, k) else ValueOf(old_, k) {
      AppliedValue(Values(old_), order, callback, k, ValueOf(new_, k));
      assert Call(callback, k, ValueOf(new_, k)) in calls <==> Changed(old_, new_, k);
    }
    forall k ensures Read(Values(new_), k) == ValueOf(new_, k) {
    }
    if NoSilentChange(old_, new_) {
      assert forall k :: !Changed(old_, new_, k) ==> ValueOf(old_, k) == ValueOf(new_, k);
    } else {
      var k :| k in old_ && k in new_ && old_[k].version == new_[k].version && old_[k].value != new_[k].value;
      assert Read(m, k) != Read(Values(new_), k);
    }
  }

  // ---- The cache against the store ----

  /** A three-level namespace has no descendants. */
  lemma NoFourthLevel(ns: string, other: string)
    requires ValidNamespace(ns) && |Split(ns)| == 3 && ValidNamespace(other) && Covers(ns, other)
    ensures ns == other
  {
    SlashPrefixIsAncestor(ns, other);
  }

  lemma {:induction false} ByKeyContent(entries: seq<KVEntry>)
    ensures forall k | k in ByKey(entries) :: ByKey(entries)[k] in entries && ByKey(entries)[k].key == k
    ensures forall e | e in entries :: e.key in ByKey(entries)
  {
    if entries != [] { ByKeyContent(entries[..|entries| - 1]); }
  }

  lemma CacheEntry(s: Store, ns: string, entries: seq<KVEntry>, k: string)
    requires WellFormed(s) && IsListing(s, ns, entries) && ValidNamespace(ns) && |Split(ns)| == 3
    ensures k in ByKey(entries) <==> Live(s, (ns, k))
    ensures Live(s, (ns, k)) ==> ByKey(entries)[k] == s.cells[(ns, k)].Current()
  {
    ByKeyContent(entries);
    if Live(s, (ns, k)) {
      assert CellOk(s, (ns, k)) && Listed(s, ns, (ns, k));
      assert s.cells[(ns, k)].Current() in entries;
    }
    if k in ByKey(entries) {
      var e := ByKey(entries)[k];
      assert e in entries && CellOk(s, (e.namespace, e.key));
      NoFourthLevel(ns, e.namespace);
    }
  }

  /** The same written out: a key is cached exactly while it is stored and not deleted, with its
      current value. */
  lemma CacheHolds(s: Store, ns: string, entries: seq<KVEntry>, k: string)
    requires WellFormed(s) && IsListing(s, ns, entries) && ValidNamespace(ns) && |Split(ns)| == 3
    ensures k in ByKey(entries) <==> (ns, k) in s.cells && !s.cells[(ns, k)].deleted
    ensures k in ByKey(entries) ==> s.cells[(ns, k)].history != [] && ByKey(entries)[k] == s.cells[(ns, k)].Current()
  {
    CacheEntry(s, ns, entries, k);
    assert CellOk(s, (ns, k));
  }

  /** `cache` is exactly the live keys of the namespace with their current values. */
  ghost predicate Exact(s: Store, ns: string, cache: Cache) {
    forall k :: ExactAt(s, ns, cache, k)
  }

  predicate ExactAt(s: Store, ns: string, cache: Cache, k: string) {
    && (k in cache <==> Live(s, (ns, k)))
    && (Live(s, (ns, k)) ==> k in cache && cache[k] == s.cells[(ns, k)].Current())
  }

  /** For a three-level namespace a listing gives exactly its live keys. */
  lemma CacheIsNamespace(s: Store, ns: string, entries: seq<KVEntry>)
    requires WellFormed(s) && IsListing(s, ns, entries) && ValidNamespace(ns) && |Split(ns)| == 3
    ensures Exact(s, ns, ByKey(entries))
  {
    forall k ensures ExactAt(s, ns, ByKey(entries), k) { CacheEntry(s, ns, entries, k); }
  }

  // ---- What the request for a listing returns ----

  /** Client.List: a body without a "keys" field decodes to no entries; an error status, or
      keys that are not entries, is an error. */
  function Fetched(r: Response): Option<seq<KVEntry>> {
    match r
    case Listing(entries) => Some(entries)
    case Entry(_) => Some([])
    case VersionRecord(_) => Some([])
    case Versions(_) => Some([])
    case Deleted => Some([])
    case DeletedKeys(keys) => if keys == [] then Some([]) else None
    case Forbidden => None
    case NotFound => None
    case BadRequest => None
    case Failed(_) => None
  }

  /** The versions route takes the path of the namespace. */
  predicate TakenAsVersions(ns: string) { LastSegment(ns) == "versions" }

  /** The path of the namespace names a live key that the caller may read. */
  predicate TakenAsKey(s: Store, token: Token, ns: string) {
    MayTryKey(token, ns) && Live(s, SplitName(ns))
  }

  /** The request for the listing of a three-level namespace is answered with something else. */
  predicate Diverted(s: Store, token: Token, ns: string) { TakenAsVersions(ns) || TakenAsKey(s, token, ns) }

  /** The request succeeds. */
  predicate Answered(s: Store, token: Token, ns: string)
    requires |Split(ns)| == 3
  {
    if TakenAsVersions(ns) then HasAccess(token, Split(ns)[0], false) else
    || TakenAsKey(s, token, ns)
    || (HasAccess(token, ns, false) &&
        !(MayTryKey(token, ns) && ns !in s.namespaces && LooksLikeKeyName(LastSegment(ns))))
  }

  lemma RouteOfNamespace(ns: string)
    requires ValidNamespace(ns) && |Split(ns)| == 3
    ensures RouteGet(ns) ==
      if TakenAsVersions(ns) then KeyVersions(Split(ns)[0], Split(ns)[1]) else KeyOrListing(ns)
  {
    assert ValidSegment(Split(ns)[0]) && ValidSegment(Split(ns)[1]);
    assert Split(ns)[..1] == [Split(ns)[0]];
  }

  /** What a load of a three-level namespace sees, for every store and every caller. */
  lemma LoadOutcome(s: Store, token: Token, ns: string, r: Response)
    requires WellFormed(s) && ValidNamespace(ns) && |Split(ns)| == 3 && Served(s, token, ns, r)
    ensures Fetched(r).Some? <==> Answered(s, token, ns)
    ensures Fetched(r).Some? && Diverted(s, token, ns) ==> Fetched(r).value == []
    ensures Fetched(r).Some? && !Diverted(s, token, ns) ==> Exact(s, ns, ByKey(Fetched(r).value))
  {
    RouteOfNamespace(ns);
    if r.Listing? && !Diverted(s, token, ns) { CacheIsNamespace(s, ns, r.entries); }
  }

  /** A successful load of a three-level namespace gives exactly its live keys if and only if the
      path is taken neither by the versions route nor by a live key, or nothing is live. */
  lemma LoadExact(s: Store, token: Token, ns: string, r: Response)
    requires WellFormed(s) && ValidNamespace(ns) && |Split(ns)| == 3 && Served(s, token, ns, r)
    requires Fetched(r).Some?
    ensures Exact(s, ns, ByKey(Fetched(r).value)) <==> !Diverted(s, token, ns) || forall k :: !Live(s, (ns, k))
  {
    LoadOutcome(s, token, ns, r);
    if Diverted(s, token, ns) {
      if k :| Live(s, (ns, k)) {
        assert !ExactAt(s, ns, ByKey([]), k);
      } else {
        forall k ensures ExactAt(s, ns, ByKey([]), k) {}
      }
    }
  }

  /** For a namespace with live keys and a caller who may read it and its parent: the load
      succeeds, and is exact if and only if the last segment is not `versions` and the parent
      has no live key of that name. */
  lemma ReadableLoadExact(s: Store, token: Token, ns: string, k: string, r: Response)
    requires WellFormed(s) && ValidNamespace(ns) && |Split(ns)| == 3 && Served(s, token, ns, r)
    requires Live(s, (ns, k)) && HasAccess(token, ns, false) && HasAccess(token, ParentPath(ns), false)
    ensures !TakenAsVersions(ns) ==> Fetched(r).Some?
    ensures Fetched(r).Some? ==>
      (Exact(s, ns, ByKey(Fetched(r).value)) <==>
       LastSegment(ns) != "versions" && !Live(s, (ParentPath(ns), LastSegment(ns))))
  {
    assert CellOk(s, (ns, k));
    LoadOutcome(s, token, ns, r);
    if Fetched(r).Some? { LoadExact(s, token, ns, r); }
  }

  /** The last segment of a nested namespace is a key name, and what is above it a namespace. */
  lemma ParentIsNamespace(ns: string)
    requires ValidNamespace(ns) && |Split(ns)| >= 2
    ensures ValidNamespace(ParentPath(ns)) && ValidKey(LastSegment(ns)) && ns == KVKey(ParentPath(ns), LastSegment(ns))
  {
    var segs, n, last := Split(ns), |Split(ns)| - 1, LastSegment(ns);
    assert ValidSegment(last) && ValidSegment(segs[0]);
    SegmentsHaveNoSlash(ns, n);
    SplitUndoesKVKey(ns, ParentPath(ns), last);
    SplitAtSlash(ParentPath(ns), last);
    SplitOne(last);
    assert Split(ParentPath(ns)) == segs[..n];
    JoinNonEmpty(segs[..n]);
  }

  /** A live key of the parent with the name of the namespace hides the namespace from its caches:
      after these two sets its key is live, and every load by a caller who may read the parent
      succeeds and sees nothing. */
  lemma KeyHidesNamespace(e: KVEntry, f: KVEntry, clock: Clock, token: Token, r: Response)
    requires ValidNamespace(e.namespace) && |Split(e.namespace)| == 3 && ValidKey(e.key) && !e.isDeleted
    requires (f.namespace, f.key) == SplitName(e.namespace) && !f.isDeleted
    requires LastSegment(e.namespace) != "versions" && HasAccess(token, f.namespace, false)
    requires Served(Run(EMPTY, [Op.Set(e, clock), Op.Set(f, clock)]), token, e.namespace, r)
    ensures Live(Run(EMPTY, [Op.Set(e, clock), Op.Set(f, clock)]), (e.namespace, e.key))
    ensures Fetched(r) == Some([])
  {
    var a, b := Op.Set(e, clock), Op.Set(f, clock);
    assert [a, b][..1] == [a] && [a][..0] == [] && Run(EMPTY, []) == EMPTY;
    assert Run(EMPTY, [a, b]) == Step(Step(EMPTY, a), b);
    ParentIsNamespace(e.namespace);
    RouteOfNamespace(e.namespace);
    assert TakenAsKey(Run(EMPTY, [a, b]), token, e.namespace);
  }

  lemma NothingLoaded(s: Store, ns: string, entries: seq<KVEntry>)
    requires Exact(s, ns, ByKey(entries)) && forall k :: !Live(s, (ns, k))
    ensures entries == []
  {
    ByKeyContent(entries);
    assert forall k :: ExactAt(s, ns, ByKey(entries), k) ==> k !in ByKey(entries);
    assert entries != [] ==> entries[0].key in ByKey(entries);
  }

  /** After its deletion a namespace whose name ends like a key is answered with an error, so a
      cache of it keeps its old entries although nothing is live; otherwise its caches empty. */
  lemma ErasedNamespaceLoad(s: Store, token: Token, ns: string, r: Response)
    requires WellFormed(s) && ValidNamespace(ns) && |Split(ns)| == 3 && Served(EraseStore(s, ns), token, ns, r)
    requires HasAccess(token, ns, false) && HasAccess(token, ParentPath(ns), false) && !Diverted(s, token, ns)
    ensures Fetched(r) == if LooksLikeKeyName(LastSegment(ns)) then None else Some([])
    ensures forall k :: !Live(EraseStore(s, ns), (ns, k))
  {
    EraseWellFormed(s, ns);
    ParentIsNamespace(ns);
    assert |SplitName(ns).0| < |ns|;
    LoadOutcome(EraseStore(s, ns), token, ns, r);
    if Fetched(r).Some? { NothingLoaded(EraseStore(s, ns), ns, Fetched(r).value); }
  }

  // ---- From store to callback ----

  lemma SameVersionSameValue(s: Store, ops: seq<Op>, c: Name)
    requires WellFormed(s) && WellFormed(Run(s, ops)) && !Erases(ops, c.0)
    requires Live(s, c) && Live(Run(s, ops), c)
    requires s.cells[c].Current().version == Run(s, ops).cells[c].Current().version
    ensures s.cells[c].Current().value == Run(s, ops).cells[c].Current().value
  {
    RecordsAreImmutable(s, ops, c);
    assert CellOk(s, c) && CellOk(Run(s, ops), c);
  }

  /** Between two successful loads with no deletion of the namespace nothing changes silently,
      whatever the two requests were answered with. */
  lemma LoadsChangeVisibly(s: Store, ops: seq<Op>, token: Token, ns: string, before: Response, after: Response)
    requires WellFormed(s) && WellFormed(Run(s, ops)) && !Erases(ops, ns)
    requires ValidNamespace(ns) && |Split(ns)| == 3
    requires Served(s, token, ns, before) && Served(Run(s, ops), token, ns, after)
    requires Fetched(before).Some? && Fetched(after).Some?
    ensures NoSilentChange(ByKey(Fetched(before).value), ByKey(Fetched(after).value))
  {
    var t, a, b := Run(s, ops), ByKey(Fetched(before).value), ByKey(Fetched(after).value);
    LoadOutcome(s, token, ns, before);
    LoadOutcome(t, token, ns, after);
    forall k | k in a && k in b && a[k].version == b[k].version ensures a[k].value == b[k].value {
      assert ExactAt(s, ns, a, k) && ExactAt(t, ns, b, k);
      SameVersionSameValue(s, ops, (ns, k));
    }
  }

  /** What a reader of the namespace should see of `k`; nothing is the empty string. */
  function LiveValue(s: Store, ns: string, k: string): string {
    if Live(s, (ns, k)) then s.cells[(ns, k)].Current().value else ""
  }

  lemma LoadedValue(s: Store, token: Token, ns: string, r: Response, k: string)
    requires WellFormed(s) && ValidNamespace(ns) && |Split(ns)| == 3 && Served(s, token, ns, r) && Fetched(r).Some?
    ensures Read(Values(ByKey(Fetched(r).value)), k) == if Diverted(s, token, ns) then "" else LiveValue(s, ns, k)
  {
    LoadOutcome(s, token, ns, r);
    if !Diverted(s, token, ns) { assert ExactAt(s, ns, ByKey(Fetched(r).value), k); }
  }

  /** From store to callback: after any run without a deletion of the namespace, the calls of
      one reload, applied in any order to the values of the old cache, give every reader
      exactly the live values of the store if and only if the request was not diverted, or no
      live value is other than empty. What the earlier load returned does not matter. */
  lemma CallbacksReachStore(s: Store, ops: seq<Op>, token: Token, ns: string, before: Response, after: Response,
                            n: nat, calls: seq<Call>, order: seq<Call>, callback: nat)
    requires WellFormed(s) && WellFormed(Run(s, ops)) && !Erases(ops, ns)
    requires ValidNamespace(ns) && |Split(ns)| == 3
    requires Served(s, token, ns, before) && Served(Run(s, ops), token, ns, after)
    requires Fetched(before).Some? && Fetched(after).Some?
    requires IsDelta(ByKey(Fetched(before).value), ByKey(Fetched(after).value), n, calls) && callback < n
    requires forall c :: c in order <==> c in calls
    ensures var t := Run(s, ops);
      (forall k :: Read(Apply(Values(ByKey(Fetched(before).value)), order, callback), k) == LiveValue(t, ns, k))
      <==> !Diverted(t, token, ns) || forall k :: LiveValue(t, ns, k) == ""
  {
    var t, a, b := Run(s, ops), ByKey(Fetched(before).value), ByKey(Fetched(after).value);
    LoadsChangeVisibly(s, ops, token, ns, before, after);
    DeltaOrderFree(a, b, n, calls, order, callback);
    forall k ensures Read(Values(b), k) == if Diverted(t, token, ns) then "" else LiveValue(t, ns, k) {
      LoadedValue(t, token, ns, after, k);
    }
  }

  /** Deleting the namespace restarts its version numbers: a key set again once is at version 1
      again, and a different value goes unnoticed. */
  lemma ErasedNamespaceChangesSilently(e: KVEntry, clock: Clock)
    requires ValidNamespace(e.namespace) && ValidKey(e.key) && e.value == "old"
    ensures var s := Run(EMPTY, [Op.Set(e, clock)]);
      var t := Run(EMPTY, [Op.Set(e, clock), Op.DeleteNamespace(e.namespace), Op.Set(e.(value := "new"), clock)]);
      var c := (e.namespace, e.key);
      && c in s.cells && c in t.cells && s.cells[c].history != [] && t.cells[c].history != []
      && s.cells[c].Current().version == t.cells[c].Current().version == 1
      && s.cells[c].Current().value != t.cells[c].Current().value
  {
    var a, b, d := Op.Set(e, clock), Op.DeleteNamespace(e.namespace), Op.Set(e.(value := "new"), clock);
    assert [a][..0] == [] && Run(EMPTY, []) == EMPTY;
    assert [a, b, d][..2] == [a, b] && [a, b][..1] == [a];
    assert Run(EMPTY, [a]) == Step(EMPTY, a);
    assert Run(EMPTY, [a, b]) == Step(Step(EMPTY, a), b);
  }

  class CachedClient {
    const server: Server   // what the client's requests reach
    const token: Token
    const ns: string
    var cache: Cache
    var callbacks: nat     // registered with OnChange

    constructor (server: Server, token: Token, ns: string)
      ensures this.server == server && this.token == token && this.ns == ns && cache == map[] && callbacks == 0
    {
      this.server, this.token, this.ns := server, token, ns;
      cache, callbacks := map[], 0;
    }

    method OnChange()
      modifies this`callbacks
      ensures callbacks == old(callbacks) + 1
    {
      callbacks := callbacks + 1;
    }

    method Get(key: string) returns (value: string, found: bool)
      ensures found == (key in cache) && value == ValueOf(cache, key)
    {
      if key !in cache {
        return "", false;
      }
      return cache[key].value, true;
    }

    method GetAll() returns (result: map<string, string>)
      ensures result == Values(cache)
    {
      result := map[];
      var todo := cache.Keys;
      while todo != {}
        invariant todo <= cache.Keys
        invariant result == map k | k in cache && k !in todo :: cache[k].value
        decreases todo
      {
        var key :| key in todo;
        result := result[key := cache[key].value];
        todo := todo - {key};
      }
    }

    /** Requests the listing, rebuilds the cache from what came back and fires the callbacks.
        `reached` tells whether the request got through; `answer` is what it was answered. */
    method Reload(reached: bool) returns (calls: seq<Call>, ghost answer: Response)
      requires server.engine.Valid()
      modifies this`cache
      ensures WellFormed(server.engine.View()) && Served(server.engine.View(), token, ns, answer)
      ensures !reached || Fetched(answer).None? ==> cache == old(cache) && calls == []
      ensures reached && Fetched(answer).Some? ==>
        cache == ByKey(Fetched(answer).value) && IsDelta(old(cache), cache, callbacks, calls)
      ensures reached && answer.Listing? ==> cache == ByKey(answer.entries)
      ensures reached && (answer.Entry? || answer.Versions?) ==> cache == map[]
      ensures answer in {Forbidden, NotFound} ==> cache == old(cache) && calls == []
    {
      RevealWellFormed(server.engine.crypto, server.engine.storage.model);
      var response := server.ServeGet(token, ns);
      answer := response;
      if !reached || Fetched(response).None? {
        return [], answer;
      }
      calls := Install(Fetched(response).value);
    }

    /** The rest of reload: swaps in the new cache and notifies. */
    method Install(entries: seq<KVEntry>) returns (calls: seq<Call>)
      modifies this`cache
      ensures cache == ByKey(entries) && IsDelta(old(cache), cache, callbacks, calls)
    {
      var oldCache := cache;
      var newCache: Cache := map[];
      var i := 0;
      while i < |entries|
        invariant 0 <= i <= |entries| && newCache == ByKey(entries[..i])
      {
        assert entries[..i + 1][..i] == entries[..i];
        newCache := newCache[entries[i].key := entries[i]];
        i := i + 1;
      }
      assert entries[..|entries|] == entries;
      cache := newCache;
      calls := NotifyChanges(oldCache, newCache);
    }

    method NotifyChanges(oldCache: Cache, newCache: Cache) returns (calls: seq<Call>)
      ensures IsDelta(oldCache, newCache, callbacks, calls)
      ensures forall c :: c in calls <==>
        && c.callback < callbacks
        && (if c.key in newCache
            then c.value == newCache[c.key].value &&
              (c.key !in oldCache || oldCache[c.key].version != newCache[c.key].version)
            else c.key in oldCache && c.value == "")
    {
      calls := [];
      if callbacks == 0 {
        return;
      }
      var todo := newCache.Keys;
      while todo != {}
        invariant todo <= newCache.Keys
        invariant Fired(oldCache, newCache, callbacks, newCache.Keys - todo, calls)
        decreases todo
      {
        var key :| key in todo;
        if key !in oldCache || oldCache[key].version != newCache[key].version {
          calls := Fire(oldCache, newCache, newCache.Keys - todo, key, newCache[key].value, calls);
        }
        assert newCache.Keys - (todo - {key}) == newCache.Keys - todo + {key};
        todo := todo - {key};
      }
      todo := oldCache.Keys;
      assert newCache.Keys - {} == newCache.Keys + (oldCache.Keys - todo);
      while todo != {}
        invariant todo <= oldCache.Keys
        invariant Fired(oldCache, newCache, callbacks, newCache.Keys + (oldCache.Keys - todo), calls)
        decreases todo
      {
        var key :| key in todo;
        if key !in newCache {
          calls := Fire(oldCache, newCache, newCache.Keys + (oldCache.Keys - todo), key, "", calls);
        }
        assert newCache.Keys + (oldCache.Keys - (todo - {key})) == newCache.Keys + (oldCache.Keys - todo) + {key};
        todo := todo - {key};
      }
    }

    /** The inner loop: every callback is started once for `key`. */
    method Fire(oldCache: Cache, newCache: Cache, ghost done: set<string>, key: string, value: string, calls: seq<Call>)
      returns (r: seq<Call>)
      requires Fired(oldCache, newCache, callbacks, done, calls)
      requires key !in done && Changed(oldCache, newCache, key) && value == ValueOf(newCache, key)
      ensures Fired(oldCache, newCache, callbacks, done + {key}, r)
    {
      r := calls;
      var i := 0;
      while i < callbacks
        invariant 0 <= i <= callbacks
        invariant forall c :: c in r <==> c in calls || (c.callback < i && c.key == key && c.value == value)
        invariant forall a, b | 0 <= a < b < |r| :: r[a] != r[b]
      {
        assert Call(i, key, value) !in r;
        r := r + [Call(i, key, value)];
        i := i + 1;
      }
    }
  }

  /** The delta restricted to the keys looked at so far. */
  ghost predicate Fired(old_: Cache, new_: Cache, n: nat, done: set<string>, calls: seq<Call>) {
    && (forall c :: c in calls <==>
          c.callback < n && c.key in done && Changed(old_, new_, c.key) && c.value == ValueOf(new_, c.key))
    && (forall i, j | 0 <= i < j < |calls| :: calls[i] != calls[j])
  }
}
