/** The store the code is meant to be: every (namespace, key) has a numbered history and a
    deleted flag. Nothing here mentions buckets, byte keys or cursors. */
module Store {
  import opened ByteOrder
  import opened Names

  // ---- Records (internal/models/models.go) ----

  /** A clock reading; 0 is the zero time. */
  type Time = int

  datatype EntryType = Config | Secret

  datatype KVEntry = KVEntry(
    namespace: string, key: string, value: string, kind: EntryType, version: int,
    createdAt: Time, updatedAt: Time, metadata: map<string, string>, isDeleted: bool)

  datatype Version = Version(
    namespace: string, key: string, value: string, kind: EntryType, version: int,
    timestamp: Time, metadata: map<string, string>)

  datatype Namespace = Namespace(name: string, createdAt: Time, updatedAt: Time)

  /** The clock readings of one write transaction. */
  datatype Clock = Clock(nsCreated: Time, nsUpdated: Time, now: Time)

  // ---- Abstract state ----

  datatype Cell = Cell(history: seq<Version>, createdAt: Time, updatedAt: Time, deleted: bool) {
    /** The current value is the last record of the history. */
    function Current(): KVEntry
      requires history != []
    {
      var v := history[|history| - 1];
      KVEntry(v.namespace, v.key, v.value, v.kind, v.version, createdAt, updatedAt, v.metadata, deleted)
    }
  }

  type Name = (string, string)

  datatype Store = Store(namespaces: map<string, Namespace>, cells: map<Name, Cell>)

  const EMPTY := Store(map[], map[])

  /** A history is numbered exactly 1..n and records its own name. */
  predicate Numbered(c: Name, history: seq<Version>) {
    forall i | 0 <= i < |history| ::
      history[i].namespace == c.0 && history[i].key == c.1 && history[i].version == i + 1
  }

  predicate CellOk(s: Store, c: Name) {
    c in s.cells ==>
      && ValidNamespace(c.0) && ValidKey(c.1) && c.0 in s.namespaces
      && 1 <= |s.cells[c].history| <= MAX_INT64
      && Numbered(c, s.cells[c].history)
  }

  predicate NamespaceOk(s: Store, n: string) {
    n in s.namespaces ==> ValidNamespace(n) && s.namespaces[n].name == n
  }

  ghost predicate WellFormed(s: Store) {
    && (forall n :: NamespaceOk(s, n))
    && (forall c :: CellOk(s, c))
  }

  function History(s: Store, c: Name): seq<Version> {
    if c in s.cells then s.cells[c].history else []
  }

  predicate Live(s: Store, c: Name) {
    c in s.cells && !s.cells[c].deleted && s.cells[c].history != []
  }

  // ---- Operations ----

  /** The history record written for `e`: one more than the last number ever used. */
  function NewRecord(s: Store, e: KVEntry, now: Time): Version {
    Version(e.namespace, e.key, e.value, e.kind, |History(s, (e.namespace, e.key))| + 1, now, e.metadata)
  }

  function CellAfterSet(s: Store, e: KVEntry, now: Time): (cell: Cell)
    ensures cell.history != []
  {
    Cell(History(s, (e.namespace, e.key)) + [NewRecord(s, e, now)],
         if e.createdAt == 0 then now else e.createdAt, now, e.isDeleted)
  }

  /** A namespace record keeps its creation time. */
  function TouchedNamespace(s: Store, ns: string, clock: Clock): Namespace {
    Namespace(ns, if ns in s.namespaces then s.namespaces[ns].createdAt else clock.nsCreated, clock.nsUpdated)
  }

  function SetStore(s: Store, e: KVEntry, clock: Clock): Store {
    Store(s.namespaces[e.namespace := TouchedNamespace(s, e.namespace, clock)],
          s.cells[(e.namespace, e.key) := CellAfterSet(s, e, clock.now)])
  }

  function DeleteStore(s: Store, c: Name, now: Time): Store {
    if c in s.cells then s.(cells := s.cells[c := s.cells[c].(deleted := true, updatedAt := now)]) else s
  }

  /** Cells of exactly this namespace go; child namespaces keep theirs. */
  function EraseStore(s: Store, ns: string): Store {
    Store(s.namespaces - {ns}, map c | c in s.cells && c.0 != ns :: s.cells[c])
  }

  // ---- Listings ----

  /** `p` is `ns` or one of its ancestors. */
  predicate Covers(p: string, ns: string) { p == ns || p + "/" <= ns }

  predicate Listed(s: Store, p: string, c: Name) { Live(s, c) && Covers(p, c.0) }

  function EntryKeys(entries: seq<KVEntry>): (keys: seq<string>)
    ensures |keys| == |entries|
    ensures forall i | 0 <= i < |keys| :: keys[i] == KVKey(entries[i].namespace, entries[i].key)
  {
    seq(|entries|, i requires 0 <= i < |entries| => KVKey(entries[i].namespace, entries[i].key))
  }

  /** `entries` are the current values of the live cells in `p` and its descendants, each
      once, in byte order of their keys. */
  ghost predicate IsListing(s: Store, p: string, entries: seq<KVEntry>) {
    && Ascending(EntryKeys(entries))
    && (forall e | e in entries :: Listed(s, p, (e.namespace, e.key)) && e == s.cells[(e.namespace, e.key)].Current())
    && (forall c | Listed(s, p, c) :: s.cells[c].Current() in entries)
  }

  /** A listing is determined by the abstract store. */
  lemma ListingUnique(s: Store, p: string, a: seq<KVEntry>, b: seq<KVEntry>)
    requires WellFormed(s) && IsListing(s, p, a) && IsListing(s, p, b)
    ensures a == b
  {
    forall k ensures k in EntryKeys(a) <==> k in EntryKeys(b) {
      if k in EntryKeys(a) { ListingKeysInclude(s, p, a, b, k); }
      if k in EntryKeys(b) { ListingKeysInclude(s, p, b, a, k); }
    }
    AscendingUnique(EntryKeys(a), EntryKeys(b));
    forall i | 0 <= i < |a| ensures a[i] == b[i] {
      assert EntryKeys(a)[i] == EntryKeys(b)[i];
      ListedByKey(s, p, a, i);
      ListedByKey(s, p, b, i);
      KVKeyInjective(a[i].namespace, a[i].key, b[i].namespace, b[i].key);
    }
  }

  lemma ListedByKey(s: Store, p: string, a: seq<KVEntry>, i: nat)
    requires WellFormed(s) && IsListing(s, p, a) && i < |a|
    ensures '/' !in a[i].key && Live(s, (a[i].namespace, a[i].key))
    ensures a[i] == s.cells[(a[i].namespace, a[i].key)].Current()
  {
    assert a[i] in a;
    assert CellOk(s, (a[i].namespace, a[i].key));
  }

  lemma ListingKeysInclude(s: Store, p: string, a: seq<KVEntry>, b: seq<KVEntry>, k: string)
    requires IsListing(s, p, a) && IsListing(s, p, b) && k in EntryKeys(a)
    ensures k in EntryKeys(b)
  {
    var i :| 0 <= i < |a| && EntryKeys(a)[i] == k;
    assert a[i] in a;
    assert a[i] in b;
    var j :| 0 <= j < |b| && b[j] == a[i];
    assert EntryKeys(b)[j] == k;
  }

  // ---- Runs ----

  datatype Op =
    | Set(entry: KVEntry, clock: Clock)
    | Delete(name: Name, now: Time)
    | DeleteNamespace(ns: string)

  /** One engine operation; a refused one changes nothing. */
  function Step(s: Store, op: Op): Store {
    match op
    case Set(e, clock) => if ValidNamespace(e.namespace) && ValidKey(e.key) then SetStore(s, e, clock) else s
    case Delete(c, now) => DeleteStore(s, c, now)
    case DeleteNamespace(ns) => if ns in s.namespaces then EraseStore(s, ns) else s
  }

  function Run(s: Store, ops: seq<Op>): Store {
    if ops == [] then s else Step(Run(s, ops[..|ops| - 1]), ops[|ops| - 1])
  }

  /** No history is longer than `n`. */
  ghost predicate Bounded(s: Store, n: nat) {
    forall c | c in s.cells :: |s.cells[c].history| <= n
  }

  lemma SetWellFormed(s: Store, e: KVEntry, clock: Clock)
    requires WellFormed(s) && ValidNamespace(e.namespace) && ValidKey(e.key)
    requires |History(s, (e.namespace, e.key))| < MAX_INT64
    ensures WellFormed(SetStore(s, e, clock))
  {
    var t, name := SetStore(s, e, clock), (e.namespace, e.key);
    forall n ensures NamespaceOk(t, n) { assert NamespaceOk(s, n); }
    forall c ensures CellOk(t, c) {
      assert CellOk(s, c);
      if c == name {
        assert t.cells[c].history == History(s, c) + [NewRecord(s, e, clock.now)];
      }
    }
  }

  lemma DeleteWellFormed(s: Store, c: Name, now: Time)
    requires WellFormed(s)
    ensures WellFormed(DeleteStore(s, c, now))
  {
    forall n ensures NamespaceOk(DeleteStore(s, c, now), n) { assert NamespaceOk(s, n); }
    forall d ensures CellOk(DeleteStore(s, c, now), d) {
      assert CellOk(s, d);
    }
  }

  lemma EraseWellFormed(s: Store, ns: string)
    requires WellFormed(s)
    ensures WellFormed(EraseStore(s, ns))
  {
    forall n ensures NamespaceOk(EraseStore(s, ns), n) { assert NamespaceOk(s, n); }
    forall d ensures CellOk(EraseStore(s, ns), d) {
      assert CellOk(s, d);
    }
  }

  lemma StepWellFormed(s: Store, op: Op, n: nat)
    requires WellFormed(s) && Bounded(s, n) && n < MAX_INT64
    ensures WellFormed(Step(s, op)) && Bounded(Step(s, op), n + 1)
  {
    match op
    case Set(e, clock) =>
      if ValidNamespace(e.namespace) && ValidKey(e.key) { SetWellFormed(s, e, clock); }
    case Delete(c, now) => DeleteWellFormed(s, c, now);
    case DeleteNamespace(ns) => EraseWellFormed(s, ns);
  }

  /** Over every run from the empty store that is shorter than 2^63 operations: every current
      value has a namespace record and a non-empty history numbered 1..n, and no counter
      reaches the end of the int64 range. */
  lemma {:induction false} RunWellFormed(ops: seq<Op>)
    requires |ops| <= MAX_INT64
    ensures WellFormed(Run(EMPTY, ops)) && Bounded(Run(EMPTY, ops), |ops|)
  {
    if ops != [] {
      RunWellFormed(ops[..|ops| - 1]);
      StepWellFormed(Run(EMPTY, ops[..|ops| - 1]), ops[|ops| - 1], |ops| - 1);
    }
  }

  predicate Erases(ops: seq<Op>, ns: string) {
    exists i :: 0 <= i < |ops| && ops[i] == DeleteNamespace(ns)
  }

  /** Version discipline: while its namespace is not deleted, a record once written never
      changes, and the history only grows. */
  lemma {:induction false} RecordsAreImmutable(s: Store, ops: seq<Op>, c: Name)
    requires !Erases(ops, c.0)
    ensures History(s, c) <= History(Run(s, ops), c)
  {
    if ops != [] {
      var pre, last := ops[..|ops| - 1], ops[|ops| - 1];
      assert ops[|ops| - 1] != DeleteNamespace(c.0);
      assert forall i | 0 <= i < |pre| :: pre[i] == ops[i];
      RecordsAreImmutable(s, pre, c);
      assert History(Run(s, pre), c) <= History(Step(Run(s, pre), last), c);
    }
  }

  /** How many sets of `c` an operation sequence performs after the last deletion of its namespace. */
  function SetsSince(s: Store, ops: seq<Op>, c: Name): nat {
    if ops == [] then |History(s, c)| else
    var pre, op := ops[..|ops| - 1], ops[|ops| - 1];
    match op
    case Set(e, _) =>
      SetsSince(s, pre, c) + if (e.namespace, e.key) == c && ValidNamespace(c.0) && ValidKey(c.1) then 1 else 0
    case Delete(_, _) => SetsSince(s, pre, c)
    case DeleteNamespace(ns) => if ns == c.0 && ns in Run(s, pre).namespaces then 0 else SetsSince(s, pre, c)
  }

  /** The version numbers count the sets of a key, also across soft deletes. */
  lemma {:induction false} VersionCountsSets(s: Store, ops: seq<Op>, c: Name)
    ensures |History(Run(s, ops), c)| == SetsSince(s, ops, c)
  {
    if ops != [] {
      VersionCountsSets(s, ops[..|ops| - 1], c);
    }
  }

  // ---- The operations, written out ----

  /** What a set of a valid name leaves: one more record with the next number and the write time,
      the current value that goes with it, the touched namespace record, and all else as it was. */
  lemma SetWrites(s: Store, e: KVEntry, clock: Clock)
    requires ValidNamespace(e.namespace) && ValidKey(e.key)
    ensures var c, t := (e.namespace, e.key), Step(s, Op.Set(e, clock));
      var before := if c in s.cells then s.cells[c].history else [];
      && t.cells.Keys == s.cells.Keys + {c} && t.namespaces.Keys == s.namespaces.Keys + {e.namespace}
      && t.cells[c].history ==
        before + [Version(e.namespace, e.key, e.value, e.kind, |before| + 1, clock.now, e.metadata)]
      && t.cells[c].Current() == KVEntry(e.namespace, e.key, e.value, e.kind, |before| + 1,
           if e.createdAt == 0 then clock.now else e.createdAt, clock.now, e.metadata, e.isDeleted)
      && (Live(t, c) <==> !e.isDeleted)
      && t.namespaces[e.namespace].name == e.namespace && t.namespaces[e.namespace].updatedAt == clock.nsUpdated
      && t.namespaces[e.namespace].createdAt ==
           (if e.namespace in s.namespaces then s.namespaces[e.namespace].createdAt else clock.nsCreated)
      && (forall d | d in s.cells && d != c :: t.cells[d] == s.cells[d])
      && (forall n | n in s.namespaces && n != e.namespace :: t.namespaces[n] == s.namespaces[n])
  {
  }

  /** What a soft delete leaves: the same records and current value, marked deleted at the write time. */
  lemma DeleteWrites(s: Store, c: Name, now: Time)
    requires c in s.cells && s.cells[c].history != []
    ensures var t := Step(s, Op.Delete(c, now));
      && t.namespaces == s.namespaces && t.cells.Keys == s.cells.Keys
      && t.cells[c].history == s.cells[c].history && !Live(t, c)
      && t.cells[c].Current() == s.cells[c].Current().(isDeleted := true, updatedAt := now)
      && (forall d | d in s.cells && d != c :: t.cells[d] == s.cells[d])
  {
  }

  /** What the deletion of a recorded namespace leaves: exactly the other namespaces and their cells. */
  lemma EraseWrites(s: Store, ns: string)
    requires ns in s.namespaces
    ensures var t := Step(s, Op.DeleteNamespace(ns));
      && (forall n :: n in t.namespaces <==> n in s.namespaces && n != ns)
      && (forall n | n in t.namespaces :: t.namespaces[n] == s.namespaces[n])
      && (forall c :: c in t.cells <==> c in s.cells && c.0 != ns)
      && (forall c | c in t.cells :: t.cells[c] == s.cells[c])
  {
  }

  /** Refused operations leave everything. */
  lemma RefusedWritesNothing(s: Store, op: Op)
    requires match op
      case Set(e, _) => !ValidNamespace(e.namespace) || !ValidKey(e.key)
      case Delete(c, _) => c !in s.cells
      case DeleteNamespace(ns) => ns !in s.namespaces
    ensures Step(s, op) == s
  {
  }
}
