/** The four flat buckets as maps over byte keys, and what it means for them to represent an
    abstract store. */
module Buckets {
  import opened ByteOrder
  import opened Names
  import opened Store

  datatype Buckets = Buckets(
    namespaces: map<string, Namespace>,
    kvData: map<string, KVEntry>,
    kvVersions: map<string, Version>,
    meta: map<string, seq<Byte>>)

  // ---- Representation: the coherence of the buckets ----

  /** Record number `n` of a history is in the bucket under its own key. */
  predicate RecordStored(b: Buckets, c: Name, n: int, history: seq<Version>)
    requires 1 <= n <= |history|
  {
    && VersionKey(c.0, c.1, n) in b.kvVersions
    && b.kvVersions[VersionKey(c.0, c.1, n)] == history[n - 1]
  }

  predicate HistoryStored(b: Buckets, c: Name, history: seq<Version>) {
    forall n | 1 <= n <= |history| :: RecordStored(b, c, n, history)
  }

  /** Current value, counter and history of one cell agree on the version number. */
  predicate CellStored(b: Buckets, c: Name, cell: Cell) {
    && 1 <= |cell.history| <= MAX_INT64
    && KVKey(c.0, c.1) in b.kvData
    && b.kvData[KVKey(c.0, c.1)] == cell.Current()
    && CounterKey(c.0, c.1) in b.meta
    && b.meta[CounterKey(c.0, c.1)] == EncodeCounter(|cell.history|)
    && HistoryStored(b, c, cell.history)
  }

  /** Every current value belongs to a cell. */
  predicate ValueOwned(s: Store, k: string, e: KVEntry) {
    k == KVKey(e.namespace, e.key) && (e.namespace, e.key) in s.cells
  }

  /** Every history record belongs to a cell and to a number of its history. */
  predicate RecordOwned(s: Store, k: string, v: Version) {
    && (v.namespace, v.key) in s.cells
    && 1 <= v.version <= |s.cells[(v.namespace, v.key)].history|
    && k == VersionKey(v.namespace, v.key, v.version)
  }

  /** Every counter belongs to a current value. */
  predicate CounterOwned(b: Buckets, k: string) {
    "version_" <= k && k[8..] in b.kvData
  }

  predicate CellHeld(b: Buckets, s: Store, c: Name) {
    c in s.cells ==> CellStored(b, c, s.cells[c])
  }

  predicate ValueHeld(b: Buckets, s: Store, k: string) {
    k in b.kvData ==> ValueOwned(s, k, b.kvData[k])
  }

  predicate RecordHeld(b: Buckets, s: Store, k: string) {
    k in b.kvVersions ==> RecordOwned(s, k, b.kvVersions[k])
  }

  predicate CounterHeld(b: Buckets, k: string) {
    k in b.meta ==> CounterOwned(b, k)
  }

  ghost predicate Represents(b: Buckets, s: Store) {
    && WellFormed(s)
    && b.namespaces == s.namespaces
    && (forall c :: CellHeld(b, s, c))
    && (forall k :: ValueHeld(b, s, k))
    && (forall k :: RecordHeld(b, s, k))
    && (forall k :: CounterHeld(b, k))
  }

  lemma NameOk(s: Store, c: Name)
    requires WellFormed(s) && c in s.cells
    ensures ValidNamespace(c.0) && ValidKey(c.1)
    ensures '/' !in c.1 && '#' !in KVKey(c.0, c.1)
    ensures s.cells[c].history != []
  {
    assert CellOk(s, c);
    ValidNameFacts(c.0, c.1);
  }

  /** Looking a name up in the bucket of current values finds its own cell or nothing, for
      every namespace string and every key without '/'. */
  lemma LookupExact(b: Buckets, s: Store, c: Name)
    requires Represents(b, s) && '/' !in c.1
    ensures KVKey(c.0, c.1) in b.kvData <==> c in s.cells
    ensures CounterKey(c.0, c.1) in b.meta <==> c in s.cells
    ensures c in s.cells ==> CellStored(b, c, s.cells[c])
  {
    assert CellHeld(b, s, c) && CellOk(s, c);
    assert ValueHeld(b, s, KVKey(c.0, c.1));
    if KVKey(c.0, c.1) in b.kvData {
      var e := b.kvData[KVKey(c.0, c.1)];
      NameOk(s, (e.namespace, e.key));
      KVKeyInjective(c.0, c.1, e.namespace, e.key);
    }
    CounterKeyInjective(c.0, c.1, c.0, c.1);
    assert CounterHeld(b, CounterKey(c.0, c.1));
  }

  lemma VersionFound(b: Buckets, s: Store, c: Name, version: int)
    requires Represents(b, s) && '/' !in c.1 && Int64(version)
    requires VersionKey(c.0, c.1, version) in b.kvVersions
    ensures 1 <= version <= |History(s, c)|
  {
    var k := VersionKey(c.0, c.1, version);
    var v := b.kvVersions[k];
    assert RecordHeld(b, s, k);
    NameOk(s, (v.namespace, v.key));
    assert CellOk(s, (v.namespace, v.key));
    VersionKeyInjective(c.0, c.1, version, v.namespace, v.key, v.version);
  }

  /** Looking a version up finds that record of that history or nothing. */
  lemma VersionLookupExact(b: Buckets, s: Store, c: Name, version: int)
    requires Represents(b, s) && '/' !in c.1 && Int64(version)
    ensures VersionKey(c.0, c.1, version) in b.kvVersions <==> 1 <= version <= |History(s, c)|
    ensures 1 <= version <= |History(s, c)| ==>
      b.kvVersions[VersionKey(c.0, c.1, version)] == History(s, c)[version - 1]
  {
    if VersionKey(c.0, c.1, version) in b.kvVersions {
      VersionFound(b, s, c, version);
    }
    if 1 <= version <= |History(s, c)| {
      assert CellHeld(b, s, c);
      assert RecordStored(b, c, version, s.cells[c].history);
    }
  }

  /** The stored counter decodes to the length of the history. */
  lemma CounterStored(b: Buckets, s: Store, c: Name)
    requires Represents(b, s) && ValidKey(c.1)
    ensures (CounterKey(c.0, c.1) in b.meta <==> History(s, c) != []) && (c in s.cells <==> History(s, c) != [])
    ensures CounterKey(c.0, c.1) in b.meta ==> DecodeCounter(b.meta[CounterKey(c.0, c.1)]) == |History(s, c)|
  {
    LookupExact(b, s, c);
    assert CellHeld(b, s, c) && CellOk(s, c);
    if c in s.cells { CounterRoundTrip(|History(s, c)|); }
  }

  // ---- Effect of a set ----

  ghost function SetBuckets(b: Buckets, s: Store, e: KVEntry, clock: Clock): Buckets
    requires |History(s, (e.namespace, e.key))| < MAX_INT64
  {
    var cell := CellAfterSet(s, e, clock.now);
    var n := |cell.history|;
    Buckets(b.namespaces[e.namespace := TouchedNamespace(s, e.namespace, clock)],
            b.kvData[KVKey(e.namespace, e.key) := cell.Current()],
            b.kvVersions[VersionKey(e.namespace, e.key, n) := NewRecord(s, e, clock.now)],
            b.meta[CounterKey(e.namespace, e.key) := EncodeCounter(n)])
  }

  lemma SetKeepsRecord(b: Buckets, s: Store, e: KVEntry, clock: Clock, c: Name, n: int)
    requires Represents(b, s) && ValidNamespace(e.namespace) && ValidKey(e.key)
    requires |History(s, (e.namespace, e.key))| < MAX_INT64
    requires c in s.cells && 1 <= n <= |s.cells[c].history|
    ensures RecordStored(SetBuckets(b, s, e, clock), c, n, s.cells[c].history)
  {
    var last := |CellAfterSet(s, e, clock.now).history|;
    assert CellHeld(b, s, c);
    assert RecordStored(b, c, n, s.cells[c].history);
    NameOk(s, c);
    ValidNameFacts(e.namespace, e.key);
    if VersionKey(c.0, c.1, n) == VersionKey(e.namespace, e.key, last) {
      VersionKeyInjective(c.0, c.1, n, e.namespace, e.key, last);
    }
  }

  lemma SetKeepsOther(b: Buckets, s: Store, e: KVEntry, clock: Clock, c: Name)
    requires Represents(b, s) && ValidNamespace(e.namespace) && ValidKey(e.key)
    requires |History(s, (e.namespace, e.key))| < MAX_INT64
    requires c in s.cells && c != (e.namespace, e.key)
    ensures CellStored(SetBuckets(b, s, e, clock), c, s.cells[c])
  {
    assert CellHeld(b, s, c);
    NameOk(s, c);
    ValidNameFacts(e.namespace, e.key);
    if KVKey(c.0, c.1) == KVKey(e.namespace, e.key) { KVKeyInjective(c.0, c.1, e.namespace, e.key); }
    CounterKeyInjective(c.0, c.1, e.namespace, e.key);
    forall n | 1 <= n <= |s.cells[c].history|
      ensures RecordStored(SetBuckets(b, s, e, clock), c, n, s.cells[c].history)
    {
      SetKeepsRecord(b, s, e, clock, c, n);
    }
  }

  lemma SetStoresNew(b: Buckets, s: Store, e: KVEntry, clock: Clock)
    requires |History(s, (e.namespace, e.key))| < MAX_INT64
    ensures var history := CellAfterSet(s, e, clock.now).history;
      RecordStored(SetBuckets(b, s, e, clock), (e.namespace, e.key), |history|, history)
  {
  }

  lemma RecordInLonger(b: Buckets, c: Name, n: int, history: seq<Version>, longer: seq<Version>)
    requires 1 <= n <= |history| && history <= longer && RecordStored(b, c, n, history)
    ensures RecordStored(b, c, n, longer)
  {
  }

  lemma SetStoresRecord(b: Buckets, s: Store, e: KVEntry, clock: Clock, n: int)
    requires Represents(b, s) && ValidNamespace(e.namespace) && ValidKey(e.key)
    requires |History(s, (e.namespace, e.key))| < MAX_INT64
    requires 1 <= n <= |CellAfterSet(s, e, clock.now).history|
    ensures RecordStored(SetBuckets(b, s, e, clock), (e.namespace, e.key), n, CellAfterSet(s, e, clock.now).history)
  {
    var c, longer := (e.namespace, e.key), CellAfterSet(s, e, clock.now).history;
    if n <= |History(s, c)| {
      SetKeepsRecord(b, s, e, clock, c, n);
      RecordInLonger(SetBuckets(b, s, e, clock), c, n, History(s, c), longer);
    } else {
      SetStoresNew(b, s, e, clock);
    }
  }

  lemma SetStoresHistory(b: Buckets, s: Store, e: KVEntry, clock: Clock)
    requires Represents(b, s) && ValidNamespace(e.namespace) && ValidKey(e.key)
    requires |History(s, (e.namespace, e.key))| < MAX_INT64
    ensures HistoryStored(SetBuckets(b, s, e, clock), (e.namespace, e.key), CellAfterSet(s, e, clock.now).history)
  {
    var c, b', history := (e.namespace, e.key), SetBuckets(b, s, e, clock), CellAfterSet(s, e, clock.now).history;
    forall n | 1 <= n <= |history| ensures RecordStored(b', c, n, history) {
      SetStoresRecord(b, s, e, clock, n);
    }
  }

  lemma SetStoresOwn(b: Buckets, s: Store, e: KVEntry, clock: Clock)
    requires Represents(b, s) && ValidNamespace(e.namespace) && ValidKey(e.key)
    requires |History(s, (e.namespace, e.key))| < MAX_INT64
    ensures CellStored(SetBuckets(b, s, e, clock), (e.namespace, e.key), CellAfterSet(s, e, clock.now))
  {
    SetStoresHistory(b, s, e, clock);
  }

  lemma SetOwns(b: Buckets, s: Store, e: KVEntry, clock: Clock)
    requires Represents(b, s) && |History(s, (e.namespace, e.key))| < MAX_INT64
    ensures var b', s' := SetBuckets(b, s, e, clock), SetStore(s, e, clock);
      && (forall k :: ValueHeld(b', s', k))
      && (forall k :: RecordHeld(b', s', k))
  {
    var b' := SetBuckets(b, s, e, clock);
    forall k ensures ValueHeld(b', SetStore(s, e, clock), k) {
      assert ValueHeld(b, s, k);
    }
    forall k ensures RecordHeld(b', SetStore(s, e, clock), k) {
      assert RecordHeld(b, s, k);
    }
  }

  /** The writes of one set turn a representation of `s` into one of `s` with the set. */
  lemma SetRepresents(b: Buckets, s: Store, e: KVEntry, clock: Clock)
    requires Represents(b, s) && ValidNamespace(e.namespace) && ValidKey(e.key)
    requires |History(s, (e.namespace, e.key))| < MAX_INT64
    ensures Represents(SetBuckets(b, s, e, clock), SetStore(s, e, clock))
  {
    var b', s' := SetBuckets(b, s, e, clock), SetStore(s, e, clock);
    SetWellFormed(s, e, clock);
    SetOwns(b, s, e, clock);
    forall c ensures CellHeld(b', s', c) {
      if c == (e.namespace, e.key) {
        SetStoresOwn(b, s, e, clock);
      } else if c in s.cells {
        SetKeepsOther(b, s, e, clock, c);
      }
    }
    forall k ensures CounterHeld(b', k) {
      CounterKeyInjective(e.namespace, e.key, e.namespace, e.key);
      assert CounterHeld(b, k);
    }
  }

  /** SetRepresents in terms of the values the transaction computes from the counter. */
  lemma TransactionRepresents(b: Buckets, s: Store, e: KVEntry, clock: Clock, stored: KVEntry, record: Version)
    requires Represents(b, s) && ValidNamespace(e.namespace) && ValidKey(e.key)
    requires |History(s, (e.namespace, e.key))| < MAX_INT64
    requires record == NewRecord(s, e, clock.now)
    requires stored == e.(version := record.version, updatedAt := clock.now,
                          createdAt := if e.createdAt == 0 then clock.now else e.createdAt)
    ensures CellAfterSet(s, e, clock.now).Current() == stored
    ensures Represents(Buckets(
      b.namespaces[e.namespace := TouchedNamespace(s, e.namespace, clock)],
      b.kvData[KVKey(e.namespace, e.key) := stored],
      b.kvVersions[VersionKey(e.namespace, e.key, record.version) := record],
      b.meta[CounterKey(e.namespace, e.key) := EncodeCounter(record.version)]), SetStore(s, e, clock))
  {
    SetRepresents(b, s, e, clock);
  }

  // ---- Effect of a soft delete ----

  function DeleteBuckets(b: Buckets, c: Name, now: Time): Buckets
    requires KVKey(c.0, c.1) in b.kvData
  {
    var k := KVKey(c.0, c.1);
    b.(kvData := b.kvData[k := b.kvData[k].(isDeleted := true, updatedAt := now)])
  }

  lemma DeleteStoresCell(b: Buckets, s: Store, c: Name, now: Time, d: Name)
    requires Represents(b, s) && c in s.cells && d in s.cells && KVKey(c.0, c.1) in b.kvData
    ensures CellStored(DeleteBuckets(b, c, now), d, DeleteStore(s, c, now).cells[d])
  {
    var b', cell' := DeleteBuckets(b, c, now), DeleteStore(s, c, now).cells[d];
    assert CellHeld(b, s, c);
    assert CellHeld(b, s, d);
    NameOk(s, c);
    NameOk(s, d);
    if KVKey(d.0, d.1) == KVKey(c.0, c.1) { KVKeyInjective(d.0, d.1, c.0, c.1); }
    forall n | 1 <= n <= |cell'.history| ensures RecordStored(b', d, n, cell'.history) {
      assert RecordStored(b, d, n, s.cells[d].history);
    }
  }

  lemma DeleteOwnsRecord(s: Store, c: Name, now: Time, k: string, v: Version)
    requires RecordOwned(s, k, v)
    ensures RecordOwned(DeleteStore(s, c, now), k, v)
  {
  }

  lemma DeleteRepresents(b: Buckets, s: Store, c: Name, now: Time)
    requires Represents(b, s) && c in s.cells && KVKey(c.0, c.1) in b.kvData
    ensures Represents(DeleteBuckets(b, c, now), DeleteStore(s, c, now))
  {
    var b', s' := DeleteBuckets(b, c, now), DeleteStore(s, c, now);
    DeleteWellFormed(s, c, now);
    forall d ensures CellHeld(b', s', d) { if d in s.cells { DeleteStoresCell(b, s, c, now, d); } }
    forall k ensures ValueHeld(b', s', k) { assert ValueHeld(b, s, k); }
    forall k ensures CounterHeld(b', k) { assert CounterHeld(b, k); }
    forall k ensures RecordHeld(b', s', k) {
      assert RecordHeld(b, s, k);
      if k in b.kvVersions { DeleteOwnsRecord(s, c, now, k, b.kvVersions[k]); }
    }
  }

  // ---- Effect of erasing one cell (one round of DeleteNamespace) ----

  function WithoutPrefix<V>(m: map<string, V>, p: string): map<string, V> {
    map k | k in m && !(p <= k) :: m[k]
  }

  function EraseCell(b: Buckets, c: Name): Buckets {
    Buckets(b.namespaces,
            b.kvData - {KVKey(c.0, c.1)},
            WithoutPrefix(b.kvVersions, KVKey(c.0, c.1) + "#"),
            b.meta - {CounterKey(c.0, c.1)})
  }

  lemma EraseKeepsOther(b: Buckets, s: Store, c: Name, d: Name)
    requires Represents(b, s) && c in s.cells && d in s.cells && c != d
    ensures CellStored(EraseCell(b, c), d, s.cells[d])
  {
    assert CellHeld(b, s, d);
    NameOk(s, c);
    NameOk(s, d);
    if KVKey(d.0, d.1) == KVKey(c.0, c.1) { KVKeyInjective(d.0, d.1, c.0, c.1); }
    CounterKeyInjective(d.0, d.1, c.0, c.1);
    forall n | 1 <= n <= |s.cells[d].history|
      ensures RecordStored(EraseCell(b, c), d, n, s.cells[d].history)
    {
      assert RecordStored(b, d, n, s.cells[d].history);
      HistoryPrefixExact(c.0, c.1, d.0, d.1, n);
    }
  }

  lemma EraseOwnsRecord(b: Buckets, s: Store, c: Name, k: string)
    requires Represents(b, s) && c in s.cells && k in EraseCell(b, c).kvVersions
    ensures RecordOwned(s.(cells := s.cells - {c}), k, b.kvVersions[k])
  {
    var v := b.kvVersions[k];
    assert RecordHeld(b, s, k);
    NameOk(s, c);
    NameOk(s, (v.namespace, v.key));
    HistoryPrefixExact(c.0, c.1, v.namespace, v.key, v.version);
  }

  lemma EraseOwnsCounter(b: Buckets, s: Store, c: Name, k: string)
    requires Represents(b, s) && c in s.cells && k in EraseCell(b, c).meta
    ensures CounterOwned(EraseCell(b, c), k)
  {
    assert CounterHeld(b, k);
    assert k == "version_" + k[8..];
  }

  /** Removing the current value, the history range and the counter of one cell leaves
      exactly the other cells represented. */
  lemma EraseRepresents(b: Buckets, s: Store, c: Name)
    requires Represents(b, s) && c in s.cells
    ensures Represents(EraseCell(b, c), s.(cells := s.cells - {c}))
  {
    var b', s' := EraseCell(b, c), s.(cells := s.cells - {c});
    forall n ensures NamespaceOk(s', n) { assert NamespaceOk(s, n); }
    forall d ensures CellOk(s', d) { assert CellOk(s, d); }
    forall d ensures CellHeld(b', s', d) { if d in s'.cells { EraseKeepsOther(b, s, c, d); } }
    forall k ensures ValueHeld(b', s', k) { assert ValueHeld(b, s, k); }
    forall k ensures RecordHeld(b', s', k) { if k in b'.kvVersions { EraseOwnsRecord(b, s, c, k); } }
    forall k ensures CounterHeld(b', k) { if k in b'.meta { EraseOwnsCounter(b, s, c, k); } }
  }

  /** `s` is `s0` with some of the cells of `ns` erased. */
  ghost predicate ErasedOnly(s0: Store, s: Store, ns: string) {
    && s.namespaces == s0.namespaces
    && (forall c | c in s.cells :: c in s0.cells && s.cells[c] == s0.cells[c])
    && (forall c | c in s0.cells && c.0 != ns :: c in s.cells)
  }

  /** The keys of all remaining cells of `ns` are still ahead of the cursor. */
  ghost predicate AheadOf(s: Store, ns: string, ahead: set<string>) {
    forall c | c in s.cells && c.0 == ns :: KVKey(c.0, c.1) in ahead
  }

  lemma EraseStarts(b: Buckets, s: Store, ns: string)
    requires Represents(b, s)
    ensures AheadOf(s, ns, WithPrefix(b.kvData.Keys, ns + "/"))
  {
    forall c | c in s.cells && c.0 == ns ensures KVKey(c.0, c.1) in WithPrefix(b.kvData.Keys, ns + "/") {
      assert CellHeld(b, s, c);
      NameOk(s, c);
      KVKeyUnder(ns, c.0, c.1);
    }
  }

  /** Passing the key of `e`, erased if it belongs to `ns`, keeps all other cells of `ns` ahead. */
  lemma EraseAdvances(s: Store, s': Store, ns: string, e: KVEntry, ahead: set<string>, ahead': set<string>)
    requires WellFormed(s) && (e.namespace, e.key) in s.cells
    requires s'.cells == if e.namespace == ns then s.cells - {(ns, e.key)} else s.cells
    requires AheadOf(s, ns, ahead) && ahead - {KVKey(e.namespace, e.key)} <= ahead'
    ensures AheadOf(s', ns, ahead')
  {
    forall c | c in s'.cells && c.0 == ns ensures KVKey(c.0, c.1) in ahead' {
      NameOk(s, c);
      NameOk(s, (e.namespace, e.key));
      if KVKey(c.0, c.1) == KVKey(e.namespace, e.key) {
        KVKeyInjective(c.0, c.1, e.namespace, e.key);
      }
    }
  }

  lemma EraseEnds(b: Buckets, s0: Store, s: Store, ns: string)
    requires Represents(b, s) && ErasedOnly(s0, s, ns) && AheadOf(s, ns, {}) && WellFormed(s0)
    ensures Represents(b.(namespaces := b.namespaces - {ns}), EraseStore(s0, ns))
  {
    EraseWellFormed(s0, ns);
    var b', s' := b.(namespaces := b.namespaces - {ns}), EraseStore(s0, ns);
    assert s'.cells == s.cells;
    forall c ensures CellHeld(b', s', c) {
      assert CellHeld(b, s, c);
      if c in s.cells {
        forall n | 1 <= n <= |s.cells[c].history| ensures RecordStored(b', c, n, s.cells[c].history) {
          assert RecordStored(b, c, n, s.cells[c].history);
        }
      }
    }
    forall k ensures ValueHeld(b', s', k) { assert ValueHeld(b, s, k); }
    forall k ensures RecordHeld(b', s', k) { assert RecordHeld(b, s, k); }
    forall k ensures CounterHeld(b', k) { assert CounterHeld(b, k); }
  }

  // ---- What the prefix scans read ----

  /** The entries a listing loop has kept after the first `i` keys of its scan. */
  function LiveUpTo(m: map<string, KVEntry>, order: seq<string>, i: nat): seq<KVEntry>
    requires i <= |order| && forall k | k in order :: k in m
  {
    if i == 0 then []
    else LiveUpTo(m, order, i - 1) + if m[order[i - 1]].isDeleted then [] else [m[order[i - 1]]]
  }

  lemma {:induction false} LiveContent(m: map<string, KVEntry>, order: seq<string>, i: nat)
    requires i <= |order| && forall k | k in order :: k in m
    ensures forall e | e in LiveUpTo(m, order, i) :: !e.isDeleted && exists j :: 0 <= j < i && m[order[j]] == e
    ensures forall j | 0 <= j < i && !m[order[j]].isDeleted :: m[order[j]] in LiveUpTo(m, order, i)
  {
    if i > 0 { LiveContent(m, order, i - 1); }
  }

  lemma {:induction false} LiveAscending(m: map<string, KVEntry>, order: seq<string>, i: nat)
    requires i <= |order| && Ascending(order)
    requires forall k | k in order :: k in m && k == KVKey(m[k].namespace, m[k].key)
    ensures Ascending(EntryKeys(LiveUpTo(m, order, i)))
    ensures forall k | k in EntryKeys(LiveUpTo(m, order, i)) :: exists j :: 0 <= j < i && order[j] == k
  {
    if i > 0 {
      LiveAscending(m, order, i - 1);
      var keys, before := EntryKeys(LiveUpTo(m, order, i)), EntryKeys(LiveUpTo(m, order, i - 1));
      assert order[i - 1] in order;
      assert keys == before + if m[order[i - 1]].isDeleted then [] else [order[i - 1]];
      forall x | 0 <= x < |before| ensures Less(before[x], order[i - 1]) {
        assert before[x] in before;
      }
    }
  }

  /** Seeking to `p/` and stopping at the first non-match reads exactly the live entries of
      `p` and of its descendants, once each, in byte order. */
  lemma ScanIsListing(b: Buckets, s: Store, p: string, order: seq<string>)
    requires Represents(b, s) && IsScanOrder(order, b.kvData.Keys, p + "/")
    ensures IsListing(s, p, LiveUpTo(b.kvData, order, |order|))
  {
    var r := LiveUpTo(b.kvData, order, |order|);
    assert forall k | k in order :: ValueHeld(b, s, k);
    LiveContent(b.kvData, order, |order|);
    LiveAscending(b.kvData, order, |order|);
    forall e | e in r
      ensures Listed(s, p, (e.namespace, e.key)) && e == s.cells[(e.namespace, e.key)].Current()
    {
      var j :| 0 <= j < |order| && b.kvData[order[j]] == e;
      assert order[j] in order && ValueHeld(b, s, order[j]);
      var c := (e.namespace, e.key);
      NameOk(s, c);
      assert CellHeld(b, s, c);
      KVKeyUnder(p, c.0, c.1);
    }
    forall c | Listed(s, p, c) ensures s.cells[c].Current() in r {
      NameOk(s, c);
      assert CellHeld(b, s, c);
      KVKeyUnder(p, c.0, c.1);
      assert KVKey(c.0, c.1) in order;
    }
  }

  ghost function VersionKeys(c: Name, n: nat): (keys: seq<string>)
    ensures |keys| == n && forall i | 0 <= i < n :: keys[i] == VersionKey(c.0, c.1, i + 1)
  {
    seq(n, i => VersionKey(c.0, c.1, i + 1))
  }

  lemma VersionKeysAscending(c: Name, n: nat)
    requires n <= MAX_INT64
    ensures Ascending(VersionKeys(c, n))
  {
    var keys := VersionKeys(c, n);
    forall i, j | 0 <= i < j < n ensures Less(keys[i], keys[j]) {
      VersionKeyOrder(c, i + 1, j + 1);
    }
  }

  lemma VersionKeyOrder(c: Name, v: nat, v': nat)
    requires v < v' <= MAX_INT64
    ensures Less(VersionKey(c.0, c.1, v), VersionKey(c.0, c.1, v'))
  {
    var p := KVKey(c.0, c.1) + "#";
    Pad20Order(v, v');
    LessUnderPrefix(p, Pad20(v), Pad20(v'));
    assert p + Pad20(v) == VersionKey(c.0, c.1, v);
    assert p + Pad20(v') == VersionKey(c.0, c.1, v');
  }

  lemma ScanFindsRecord(b: Buckets, s: Store, c: Name, k: string)
    requires Represents(b, s) && '/' !in c.1
    requires k in b.kvVersions && KVKey(c.0, c.1) + "#" <= k
    ensures k in VersionKeys(c, |History(s, c)|)
  {
    var v := b.kvVersions[k];
    assert RecordHeld(b, s, k);
    NameOk(s, (v.namespace, v.key));
    HistoryPrefixExact(c.0, c.1, v.namespace, v.key, v.version);
    assert VersionKeys(c, |History(s, c)|)[v.version - 1] == k;
  }

  lemma ScanReachesRecord(b: Buckets, s: Store, c: Name, n: int)
    requires Represents(b, s) && 1 <= n <= |History(s, c)|
    ensures var k := VersionKey(c.0, c.1, n);
      k in b.kvVersions && KVKey(c.0, c.1) + "#" <= k && b.kvVersions[k] == History(s, c)[n - 1]
  {
    NameOk(s, c);
    HistoryPrefixExact(c.0, c.1, c.0, c.1, n);
    assert CellHeld(b, s, c);
    assert RecordStored(b, c, n, s.cells[c].history);
  }

  lemma RecordAt(b: Buckets, s: Store, c: Name, n: int, k: string)
    requires Represents(b, s) && 1 <= n <= |History(s, c)| && k == VersionKey(c.0, c.1, n)
    ensures k in b.kvVersions && b.kvVersions[k] == History(s, c)[n - 1]
  {
    ScanReachesRecord(b, s, c, n);
  }

  lemma ScanKeys(b: Buckets, s: Store, c: Name, order: seq<string>)
    requires Represents(b, s) && '/' !in c.1
    requires IsScanOrder(order, b.kvVersions.Keys, KVKey(c.0, c.1) + "#")
    ensures order == VersionKeys(c, |History(s, c)|)
  {
    var own := VersionKeys(c, |History(s, c)|);
    forall k | k in order ensures k in own {
      ScanFindsRecord(b, s, c, k);
    }
    forall k | k in own ensures k in order {
      var i :| 0 <= i < |own| && own[i] == k;
      ScanReachesRecord(b, s, c, i + 1);
    }
    assert |History(s, c)| <= MAX_INT64 by { assert CellOk(s, c); }
    VersionKeysAscending(c, |History(s, c)|);
    AscendingUnique(order, own);
  }

  /** Scanning `ns/key#` in byte order reads the history of that key in version order. */
  lemma ScanIsHistory(b: Buckets, s: Store, c: Name, order: seq<string>)
    requires Represents(b, s) && '/' !in c.1
    requires IsScanOrder(order, b.kvVersions.Keys, KVKey(c.0, c.1) + "#")
    ensures |order| == |History(s, c)|
    ensures forall i | 0 <= i < |order| :: order[i] in b.kvVersions && b.kvVersions[order[i]] == History(s, c)[i]
  {
    ScanKeys(b, s, c, order);
    forall i | 0 <= i < |order| ensures order[i] in b.kvVersions && b.kvVersions[order[i]] == History(s, c)[i] {
      var k := order[i];
      assert k == VersionKey(c.0, c.1, i + 1);
      RecordAt(b, s, c, i + 1, k);
    }
  }

  // ---- The representation is faithful ----

  lemma SameCell(b: Buckets, s: Store, t: Store, c: Name)
    requires Represents(b, s) && Represents(b, t) && c in s.cells
    ensures c in t.cells && s.cells[c] == t.cells[c]
  {
    NameOk(s, c);
    LookupExact(b, s, c);
    LookupExact(b, t, c);
    var order := ScanOrder(b.kvVersions.Keys, KVKey(c.0, c.1) + "#");
    ScanIsHistory(b, s, c, order);
    ScanIsHistory(b, t, c, order);
    assert s.cells[c].history == t.cells[c].history;
  }

  /** The buckets determine the abstract store they represent. */
  lemma RepresentsUnique(b: Buckets, s: Store, t: Store)
    requires Represents(b, s) && Represents(b, t)
    ensures s == t
  {
    forall c | c in s.cells ensures c in t.cells && s.cells[c] == t.cells[c] { SameCell(b, s, t, c); }
    forall c | c in t.cells ensures c in s.cells { SameCell(b, t, s, c); }
    assert s.cells == t.cells;
  }
}
