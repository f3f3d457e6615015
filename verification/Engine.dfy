/** Engine: validation, encryption of secrets and the key list of a namespace deletion, on top
    of the storage. Seen through it, the store is the abstract store with plaintext values. */
module Engine {
  import opened Wrappers
  import opened ByteOrder
  import opened Names
  import opened Store
  import opened Secrets
  import opened Bolt

  class Engine {
    const storage: BoltStore
    const crypto: Crypto

    ghost predicate Valid()
      reads storage
    {
      storage.Valid() && RoundTrips(crypto) && Readable(crypto, storage.model)
    }

    /** The abstract store with plaintext values. */
    ghost function View(): Store
      reads storage
    {
      RevealStore(crypto, storage.model)
    }

    constructor (storage: BoltStore, crypto: Crypto)
      requires storage.Valid() && storage.model == EMPTY && RoundTrips(crypto)
      ensures Valid() && this.storage == storage && this.crypto == crypto && View() == EMPTY
    {
      this.storage, this.crypto := storage, crypto;
      new;
      assert forall n :: CellReadable(crypto, EMPTY, n);
    }

    /** `created` is the clock reading that fills both times of the new entry. */
    method Set(ns: string, key: string, value: string, kind: EntryType, metadata: map<string, string>,
               created: Time, nonce: string, clock: Clock)
      returns (r: Result<KVEntry>)
      requires Valid() && |History(View(), (ns, key))| < MAX_INT64
      modifies storage
      ensures Valid()
      ensures r.Ok? <==> ValidNamespace(ns) && ValidKey(key) && (kind.Secret? ==> crypto.enc(value, nonce).Some?)
      ensures r.Err? ==> View() == old(View())
      ensures r.Err? ==>
        if !ValidNamespace(ns) then r.error == InvalidNamespace
        else if !ValidKey(key) then r.error == InvalidKey
        else r.error == EncryptFailed
      ensures r.Ok? ==>
        && View() ==
          Step(old(View()), Op.Set(KVEntry(ns, key, value, kind, 0, created, created, metadata, false), clock))
        && (ns, key) in View().cells && View().cells[(ns, key)].history != []
        && r.value == View().cells[(ns, key)].Current()
      ensures r.Ok? ==>
        var stored := if kind == Secret then crypto.enc(value, nonce).value else value;
        storage.model == Step(old(storage.model),
          Op.Set(KVEntry(ns, key, stored, kind, 0, created, created, metadata, false), clock))
    {
      if !ValidNamespace(ns) {
        return Err(InvalidNamespace);
      }
      if !ValidKey(key) {
        return Err(InvalidKey);
      }
      var storedValue := value;
      if kind == Secret {
        var encrypted := crypto.enc(value, nonce);
        if encrypted.None? {
          return Err(EncryptFailed);
        }
        storedValue := encrypted.value;
      }
      var entry := KVEntry(ns, key, storedValue, kind, 0, created, created, metadata, false);
      RevealSet(crypto, storage.model, entry, value, clock);
      SetReadable(crypto, storage.model, entry, clock);
      var stored := storage.Set(entry, clock);
      RevealCurrent(crypto, storage.model, (ns, key));
      r := Ok(stored.value.(value := value));
    }

    method Get(ns: string, key: string) returns (r: Result<KVEntry>)
      requires Valid() && '/' !in key
      ensures r == if Live(View(), (ns, key)) then Ok(View().cells[(ns, key)].Current()) else Err(KeyNotFound)
    {
      r := storage.Get(ns, key);
      if r.Err? {
        return;
      }
      RevealCurrent(crypto, storage.model, (ns, key));
      assert CellReadable(crypto, storage.model, (ns, key));
      if r.value.kind == Secret {
        var decrypted := crypto.dec(r.value.value);
        if decrypted.None? {
          return Err(DecryptFailed);
        }
        r := Ok(r.value.(value := decrypted.value));
      }
    }

    method GetVersion(ns: string, key: string, version: int) returns (r: Result<Version>)
      requires Valid() && '/' !in key && Int64(version)
      ensures r == if 1 <= version <= |History(View(), (ns, key))| then Ok(History(View(), (ns, key))[version - 1])
                   else Err(VersionNotFound)
    {
      r := storage.GetVersion(ns, key, version);
      if r.Err? {
        return;
      }
      assert CellReadable(crypto, storage.model, (ns, key));
      assert RecordReadable(crypto, storage.model.cells[(ns, key)].history[version - 1]);
      if r.value.kind == Secret {
        var decrypted := crypto.dec(r.value.value);
        if decrypted.None? {
          return Err(DecryptFailed);
        }
        r := Ok(r.value.(value := decrypted.value));
      }
    }

    /** List decrypts in place, entry by entry. */
    method List(ns: string) returns (entries: seq<KVEntry>)
      requires Valid()
      ensures IsListing(View(), ns, entries)
    {
      entries := storage.List(ns);
      ghost var stored := entries;
      var i := 0;
      while i < |entries|
        invariant 0 <= i <= |entries| == |stored|
        invariant forall j | 0 <= j < |entries| ::
          entries[j] == if j < i then RevealEntry(crypto, stored[j]) else stored[j]
      {
        if entries[i].kind == Secret {
          var decrypted := crypto.dec(entries[i].value);
          if decrypted.Some? {
            entries := entries[i := entries[i].(value := decrypted.value)];
          }
        }
        i := i + 1;
      }
      assert entries == RevealEntries(crypto, stored);
      assert WellFormed(storage.model);
      RevealListing(crypto, storage.model, ns, stored);
    }

    method Delete(ns: string, key: string, now: Time) returns (r: Result<()>)
      requires Valid() && '/' !in key
      modifies storage
      ensures Valid()
      ensures r == if (ns, key) in old(View()).cells then Ok(()) else Err(KeyNotFound)
      ensures View() == Step(old(View()), Op.Delete((ns, key), now))
    {
      RevealDelete(crypto, storage.model, (ns, key), now);
      r := storage.Delete(ns, key, now);
    }

    method GetVersions(ns: string, key: string) returns (versions: seq<Version>)
      requires Valid() && '/' !in key
      ensures versions == History(View(), (ns, key))
    {
      versions := storage.GetVersions(ns, key);
      ghost var stored := versions;
      var i := 0;
      while i < |versions|
        invariant 0 <= i <= |versions| == |stored|
        invariant forall j | 0 <= j < |versions| ::
          versions[j] == if j < i then RevealVersion(crypto, stored[j]) else stored[j]
      {
        if versions[i].kind == Secret {
          var decrypted := crypto.dec(versions[i].value);
          if decrypted.Some? {
            versions := versions[i := versions[i].(value := decrypted.value)];
          }
        }
        i := i + 1;
      }
      assert versions == RevealHistory(crypto, stored);
    }

    method GetNamespace(name: string) returns (r: Result<Namespace>)
      requires Valid()
      ensures r == if name in View().namespaces then Ok(View().namespaces[name]) else Err(NamespaceNotFound)
    {
      r := storage.GetNamespace(name);
    }

    /** The loop of DeleteNamespace that builds the key list. */
    static method CollectKeys(entries: seq<KVEntry>, name: string) returns (keys: seq<string>)
      ensures keys == KeysOf(entries, name, |entries|)
    {
      keys := [];
      var i := 0;
      while i < |entries|
        invariant 0 <= i <= |entries|
        invariant keys == KeysOf(entries, name, i)
      {
        if entries[i].namespace == name {
          keys := keys + [entries[i].key];
        }
        i := i + 1;
      }
    }

    /** Returns the keys that stop being visible, each once: the live keys of exactly this
        namespace. */
    method DeleteNamespace(name: string) returns (r: Result<seq<string>>)
      requires Valid()
      modifies storage
      ensures Valid()
      ensures r.Ok? <==> name in old(View()).namespaces
      ensures r.Err? ==> r.error == if ValidNamespace(name) then NamespaceNotFound else InvalidNamespace
      ensures View() == Step(old(View()), Op.DeleteNamespace(name))
      ensures r.Ok? ==> IsKeyList(old(View()), name, r.value)
      ensures r.Ok? ==> StopBeingVisible(old(View()), View(), name, r.value)
    {
      assert NamespaceOk(storage.model, name);
      if !ValidNamespace(name) {
        return Err(InvalidNamespace);
      }
      var ns := storage.GetNamespace(name);
      if ns.Err? {
        return Err(NamespaceNotFound);
      }
      var entries := storage.List(name);
      var keys := CollectKeys(entries, name);
      KeysStopBeingVisible(crypto, storage.model, name, entries);
      RevealDeleteNamespace(crypto, storage.model, name);
      var _ := storage.DeleteNamespace(name);
      r := Ok(keys);
    }
  }

  /** `keys` are the live keys of exactly `ns`, each once, in byte order. */
  ghost predicate IsKeyList(s: Store, ns: string, keys: seq<string>) {
    && (forall k :: k in keys <==> Live(s, (ns, k)))
    && Ascending(keys)
  }

  ghost predicate StopBeingVisible(before: Store, after: Store, ns: string, keys: seq<string>) {
    forall k :: k in keys <==> Live(before, (ns, k)) && !Live(after, (ns, k))
  }

  function KeysOf(entries: seq<KVEntry>, ns: string, n: nat): seq<string>
    requires n <= |entries|
  {
    if n == 0 then [] else
      KeysOf(entries, ns, n - 1) + if entries[n - 1].namespace == ns then [entries[n - 1].key] else []
  }

  lemma {:induction false} KeysOfContent(entries: seq<KVEntry>, ns: string, n: nat)
    requires n <= |entries| && Ascending(EntryKeys(entries))
    ensures forall k :: k in KeysOf(entries, ns, n) <==>
      exists j :: 0 <= j < n && entries[j].namespace == ns && entries[j].key == k
    ensures Ascending(KeysOf(entries, ns, n))
  {
    if n > 0 {
      KeysOfContent(entries, ns, n - 1);
      var before, last := KeysOf(entries, ns, n - 1), entries[n - 1];
      if last.namespace == ns {
        forall x | 0 <= x < |before| ensures Less(before[x], last.key) {
          assert before[x] in before;
          var j :| 0 <= j < n - 1 && entries[j].namespace == ns && entries[j].key == before[x];
          assert Less(EntryKeys(entries)[j], EntryKeys(entries)[n - 1]);
          LessUnderPrefix(ns + "/", before[x], last.key);
        }
      }
    }
  }

  lemma KeysOfListing(s: Store, ns: string, entries: seq<KVEntry>)
    requires WellFormed(s) && IsListing(s, ns, entries)
    ensures IsKeyList(s, ns, KeysOf(entries, ns, |entries|))
  {
    KeysOfContent(entries, ns, |entries|);
    forall k ensures k in KeysOf(entries, ns, |entries|) <==> Live(s, (ns, k)) {
      if k in KeysOf(entries, ns, |entries|) {
        var j :| 0 <= j < |entries| && entries[j].namespace == ns && entries[j].key == k;
        assert entries[j] in entries;
      }
      if Live(s, (ns, k)) {
        assert CellOk(s, (ns, k));
        assert Listed(s, ns, (ns, k));
        var e := s.cells[(ns, k)].Current();
        assert e in entries;
        var j :| 0 <= j < |entries| && entries[j] == e;
        assert entries[j].namespace == ns && entries[j].key == k;
      }
    }
  }

  /** The collected keys are the names that are live before the erasure and not after it. */
  lemma KeysStopBeingVisible(c: Crypto, s: Store, ns: string, entries: seq<KVEntry>)
    requires WellFormed(s) && IsListing(s, ns, entries) && ns in s.namespaces
    ensures var keys, view := KeysOf(entries, ns, |entries|), RevealStore(c, s);
      && IsKeyList(view, ns, keys)
      && StopBeingVisible(view, Step(view, Op.DeleteNamespace(ns)), ns, keys)
  {
    KeysOfListing(s, ns, entries);
    forall k ensures Live(RevealStore(c, s), (ns, k)) <==> Live(s, (ns, k)) { LiveRevealed(c, s, (ns, k)); }
    forall k ensures !Live(EraseStore(RevealStore(c, s), ns), (ns, k)) { ErasedNotLive(RevealStore(c, s), ns, k); }
  }

  lemma LiveRevealed(c: Crypto, s: Store, n: Name)
    ensures Live(RevealStore(c, s), n) <==> Live(s, n)
  {
  }

  lemma ErasedNotLive(s: Store, ns: string, k: string)
    ensures !Live(EraseStore(s, ns), (ns, k))
  {
  }
}
