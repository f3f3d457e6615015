/** BoltDBStorage: the key-value part of the storage backend over its four flat buckets.
    Every method is one transaction. */
module Bolt {
  import opened Wrappers
  import opened ByteOrder
  import opened Names
  import opened Store
  import opened Buckets

  class BoltStore {
    var namespaces: map<string, Namespace>
    var kvData: map<string, KVEntry>
    var kvVersions: map<string, Version>
    var meta: map<string, seq<Byte>>

    /** The abstract store the buckets represent; RepresentsUnique makes it a function of them. */
    ghost var model: Store

    ghost function Image(): Buckets
      reads this
    {
      Buckets(namespaces, kvData, kvVersions, meta)
    }

    ghost predicate Valid()
      reads this
    {
      Represents(Image(), model)
    }

    constructor ()
      ensures Valid() && model == EMPTY
    {
      namespaces, kvData, kvVersions, meta := map[], map[], map[], map[];
      model := EMPTY;
    }

    /** saveNamespace: keeps the creation time of an existing record. */
    method SaveNamespace(name: string, created: Time, updated: Time)
      modifies this`namespaces
      ensures namespaces == old(namespaces)[name := Namespace(name,
        if name in old(namespaces) then old(namespaces)[name].createdAt else created, updated)]
    {
      var createdAt := created;
      if name in namespaces {
        createdAt := namespaces[name].createdAt;
      }
      namespaces := namespaces[name := Namespace(name, createdAt, updated)];
    }

    /** getNextVersionTx: counts on from the stored counter with int64 arithmetic. */
    method GetNextVersionTx(ns: string, key: string) returns (version: int)
      modifies this`meta
      ensures Int64(version)
      ensures version ==
        if CounterKey(ns, key) in old(meta) then Succ64(DecodeCounter(old(meta)[CounterKey(ns, key)])) else 1
      ensures meta == old(meta)[CounterKey(ns, key) := EncodeCounter(version)]
    {
      version := 1;
      if CounterKey(ns, key) in meta {
        version := Succ64(DecodeCounter(meta[CounterKey(ns, key)]));
      }
      meta := meta[CounterKey(ns, key) := EncodeCounter(version)];
    }

    /** Set fills in version and times of the entry and stores it with its history record. */
    method Set(entry: KVEntry, clock: Clock) returns (r: Result<KVEntry>)
      requires Valid() && |History(model, (entry.namespace, entry.key))| < MAX_INT64
      modifies this
      ensures Valid()
      ensures r.Ok? <==> ValidNamespace(entry.namespace) && ValidKey(entry.key)
      ensures r.Err? ==> r.error == if ValidNamespace(entry.namespace) then InvalidKey else InvalidNamespace
      ensures model == Step(old(model), Op.Set(entry, clock))
      ensures r.Ok? ==> r.value == model.cells[(entry.namespace, entry.key)].Current()
      ensures r.Ok? ==> r.value == entry.(version := |History(old(model), (entry.namespace, entry.key))| + 1,
        createdAt := if entry.createdAt == 0 then clock.now else entry.createdAt, updatedAt := clock.now)
    {
      if !ValidNamespace(entry.namespace) {
        return Err(InvalidNamespace);
      }
      if !ValidKey(entry.key) {
        return Err(InvalidKey);
      }
      ghost var b, s, n := Image(), model, |History(model, (entry.namespace, entry.key))|;
      CounterStored(b, s, (entry.namespace, entry.key));

      SaveNamespace(entry.namespace, clock.nsCreated, clock.nsUpdated);
      var version := GetNextVersionTx(entry.namespace, entry.key);
      assert version == n + 1;
      var stored := entry.(version := version, updatedAt := clock.now,
                           createdAt := if entry.createdAt == 0 then clock.now else entry.createdAt);
      kvData := kvData[KVKey(stored.namespace, stored.key) := stored];
      var record := Version(stored.namespace, stored.key, stored.value, stored.kind, version,
                            stored.updatedAt, stored.metadata);
      kvVersions := kvVersions[VersionKey(stored.namespace, stored.key, version) := record];

      TransactionRepresents(b, s, entry, clock, stored, record);
      model := SetStore(s, entry, clock);
      r := Ok(stored);
    }

    method Get(ns: string, key: string) returns (r: Result<KVEntry>)
      requires Valid() && '/' !in key
      ensures r == if Live(model, (ns, key)) then Ok(model.cells[(ns, key)].Current()) else Err(KeyNotFound)
    {
      LookupExact(Image(), model, (ns, key));
      if KVKey(ns, key) !in kvData {
        return Err(KeyNotFound);
      }
      var entry := kvData[KVKey(ns, key)];
      if entry.isDeleted {
        return Err(KeyNotFound);
      }
      r := Ok(entry);
    }

    method GetVersion(ns: string, key: string, version: int) returns (r: Result<Version>)
      requires Valid() && '/' !in key && Int64(version)
      ensures r == if 1 <= version <= |History(model, (ns, key))| then Ok(History(model, (ns, key))[version - 1])
                   else Err(VersionNotFound)
    {
      VersionLookupExact(Image(), model, (ns, key), version);
      if VersionKey(ns, key, version) !in kvVersions {
        return Err(VersionNotFound);
      }
      r := Ok(kvVersions[VersionKey(ns, key, version)]);
    }

    /** List walks the cursor over the prefix `ns/`. */
    method List(ns: string) returns (entries: seq<KVEntry>)
      requires Valid()
      ensures IsListing(model, ns, entries)
    {
      var prefix := ns + "/";
      ghost var i := 0;
      ghost var order := ScanOrder(kvData.Keys, prefix);
      ScanIsListing(Image(), model, ns, order);
      var c := Seek(kvData.Keys, prefix);
      SeekIsFirst(kvData.Keys, prefix, order);
      entries := [];
      while AtMatch(c, prefix)
        invariant 0 <= i <= |order|
        invariant AtMatch(c, prefix) <==> i < |order|
        invariant i < |order| ==> c.value == order[i]
        invariant entries == LiveUpTo(kvData, order, i)
        decreases |order| - i
      {
        assert order[i] in order;
        var entry := kvData[c.value];
        if !entry.isDeleted {
          entries := entries + [entry];
        }
        NextIsSuccessor(kvData.Keys, prefix, order, i);
        c, i := Next(kvData.Keys, c.value), i + 1;
      }
    }

    /** Delete marks the current value as deleted; counter and history stay. */
    method Delete(ns: string, key: string, now: Time) returns (r: Result<()>)
      requires Valid() && '/' !in key
      modifies this
      ensures Valid()
      ensures r == if (ns, key) in old(model).cells then Ok(()) else Err(KeyNotFound)
      ensures model == Step(old(model), Op.Delete((ns, key), now))
    {
      LookupExact(Image(), model, (ns, key));
      if KVKey(ns, key) !in kvData {
        return Err(KeyNotFound);
      }
      DeleteRepresents(Image(), model, (ns, key), now);
      model := DeleteStore(model, (ns, key), now);
      var entry := kvData[KVKey(ns, key)];
      kvData := kvData[KVKey(ns, key) := entry.(isDeleted := true, updatedAt := now)];
      r := Ok(());
    }

    /** GetVersions walks the cursor over the prefix `ns/key#`. */
    method GetVersions(ns: string, key: string) returns (versions: seq<Version>)
      requires Valid() && '/' !in key
      ensures versions == History(model, (ns, key))
    {
      var prefix := KVKey(ns, key) + "#";
      ghost var i := 0;
      ghost var order := ScanOrder(kvVersions.Keys, prefix);
      ScanIsHistory(Image(), model, (ns, key), order);
      var c := Seek(kvVersions.Keys, prefix);
      SeekIsFirst(kvVersions.Keys, prefix, order);
      versions := [];
      while AtMatch(c, prefix)
        invariant 0 <= i <= |order|
        invariant AtMatch(c, prefix) <==> i < |order|
        invariant i < |order| ==> c.value == order[i]
        invariant versions == History(model, (ns, key))[..i]
        decreases |order| - i
      {
        versions := versions + [kvVersions[c.value]];
        NextIsSuccessor(kvVersions.Keys, prefix, order, i);
        c, i := Next(kvVersions.Keys, c.value), i + 1;
      }
    }

    method GetNamespace(name: string) returns (r: Result<Namespace>)
      requires Valid()
      ensures r == if name in model.namespaces then Ok(model.namespaces[name]) else Err(NamespaceNotFound)
    {
      if name !in namespaces {
        return Err(NamespaceNotFound);
      }
      r := Ok(namespaces[name]);
    }

    /** The inner loop of DeleteNamespace: deletes every history record under `prefix`
        while its cursor walks them. */
    method DeleteHistory(prefix: string)
      modifies this`kvVersions
      ensures kvVersions == WithoutPrefix(old(kvVersions), prefix)
    {
      var c := Seek(kvVersions.Keys, prefix);
      SeekFindsAll(kvVersions.Keys, prefix);
      while AtMatch(c, prefix)
        invariant AtMatch(c, prefix) ==> c.value in kvVersions
        invariant WithPrefix(kvVersions.Keys, prefix) == Remaining(kvVersions.Keys, prefix, c)
        invariant !AtMatch(c, prefix) ==> Remaining(kvVersions.Keys, prefix, c) == {}
        invariant WithoutPrefix(kvVersions, prefix) == WithoutPrefix(old(kvVersions), prefix)
        decreases Remaining(kvVersions.Keys, prefix, c)
      {
        ghost var keys := kvVersions.Keys;
        kvVersions := kvVersions - {c.value};
        StepLeavesRest(keys, kvVersions.Keys, prefix, c.value);
        c := Next(kvVersions.Keys, c.value);
      }
      assert forall k | k in kvVersions :: !(prefix <= k) by {
        assert forall k | k in kvVersions && prefix <= k :: k in WithPrefix(kvVersions.Keys, prefix);
      }
    }

    /** One round of DeleteNamespace: current value, history and counter of a key. */
    method EraseKey(ns: string, key: string)
      requires Valid() && (ns, key) in model.cells
      modifies this
      ensures Valid()
      ensures namespaces == old(namespaces) && kvData == old(kvData) - {KVKey(ns, key)}
      ensures model == old(model).(cells := old(model).cells - {(ns, key)})
    {
      EraseRepresents(Image(), model, (ns, key));
      model := model.(cells := model.cells - {(ns, key)});
      ghost var b := EraseCell(Image(), (ns, key));
      kvData := kvData - {KVKey(ns, key)};
      DeleteHistory(KVKey(ns, key) + "#");
      meta := meta - {CounterKey(ns, key)};
      assert Image() == b;
    }

    /** DeleteNamespace: for every current value of exactly this namespace, live or not,
        removes value, history and counter; then the namespace record. */
    method DeleteNamespace(name: string) returns (r: Result<()>)
      requires Valid()
      modifies this
      ensures Valid()
      ensures r == if name in old(model).namespaces then Ok(()) else Err(NamespaceNotFound)
      ensures model == Step(old(model), Op.DeleteNamespace(name))
    {
      if name !in namespaces {
        return Err(NamespaceNotFound);
      }
      var prefix := name + "/";
      var c := Seek(kvData.Keys, prefix);
      SeekFindsAll(kvData.Keys, prefix);
      EraseStarts(Image(), model, name);
      while AtMatch(c, prefix)
        invariant Valid()
        invariant AtMatch(c, prefix) ==> c.value in kvData
        invariant !AtMatch(c, prefix) ==> Remaining(kvData.Keys, prefix, c) == {}
        invariant ErasedOnly(old(model), model, name)
        invariant AheadOf(model, name, Remaining(kvData.Keys, prefix, c))
        decreases Remaining(kvData.Keys, prefix, c)
      {
        ghost var keys, s := kvData.Keys, model;
        assert ValueHeld(Image(), s, c.value);
        var entry := kvData[c.value];
        if entry.namespace == name {
          EraseKey(name, entry.key);
        }
        StepLeavesRest(keys, kvData.Keys, prefix, c.value);
        EraseAdvances(s, model, name, entry, Remaining(keys, prefix, c),
                      Remaining(kvData.Keys, prefix, Next(kvData.Keys, c.value)));
        c := Next(kvData.Keys, c.value);
      }
      EraseEnds(Image(), old(model), model, name);
      namespaces := namespaces - {name};
      model := EraseStore(old(model), name);
      r := Ok(());
    }
  }
}
