/** Mirroring a namespace: folding the watch events over an initial listing. */
module Replay {
  import opened Wrappers
  import opened ByteOrder
  import opened Names
  import opened Store
  import opened Channels

  type Replica = map<Name, KVEntry>

  /** What List shows of `p`, keyed by namespace and key. */
  ghost function LiveMap(s: Store, p: string): Replica {
    map c | c in s.cells && Listed(s, p, c) :: s.cells[c].Current()
  }

  /** The mirror a client builds from a listing. */
  function FromListing(entries: seq<KVEntry>): Replica {
    if entries == [] then map[] else
    var e := entries[|entries| - 1];
    FromListing(entries[..|entries| - 1])[(e.namespace, e.key) := e]
  }

  predicate IsCurrent(s: Store, e: KVEntry) {
    var c := (e.namespace, e.key);
    c in s.cells && s.cells[c].history != [] && e == s.cells[c].Current()
  }

  lemma {:induction false} FromListingContent(entries: seq<KVEntry>, s: Store)
    requires forall e | e in entries :: IsCurrent(s, e)
    ensures var m := FromListing(entries);
      && (forall c | c in m ::
            c in s.cells && s.cells[c].history != [] && m[c] == s.cells[c].Current() && m[c] in entries)
      && (forall e | e in entries :: (e.namespace, e.key) in m)
  {
    if entries != [] {
      assert entries[|entries| - 1] in entries;
      FromListingContent(entries[..|entries| - 1], s);
    }
  }

  lemma ListedIsLive(s: Store, p: string, entries: seq<KVEntry>, c: Name)
    requires WellFormed(s) && IsListing(s, p, entries) && c in FromListing(entries)
    requires FromListing(entries)[c] in entries && c in s.cells && s.cells[c].history != []
    requires FromListing(entries)[c] == s.cells[c].Current()
    ensures Listed(s, p, c)
  {
    assert CellOk(s, c);
  }

  lemma LiveIsListed(s: Store, p: string, entries: seq<KVEntry>, c: Name)
    requires WellFormed(s) && IsListing(s, p, entries) && Listed(s, p, c)
    ensures var e := s.cells[c].Current(); e in entries && (e.namespace, e.key) == c
  {
    assert CellOk(s, c);
  }

  /** The mirror built from a listing is what is live. */
  lemma ListingIsLiveMap(s: Store, p: string, entries: seq<KVEntry>)
    requires WellFormed(s) && IsListing(s, p, entries)
    ensures FromListing(entries) == LiveMap(s, p)
    ensures forall c :: c in FromListing(entries) <==>
      c in s.cells && !s.cells[c].deleted && (p == c.0 || p + "/" <= c.0)
    ensures forall c | c in FromListing(entries) ::
      s.cells[c].history != [] && FromListing(entries)[c] == s.cells[c].Current()
  {
    forall c | c in s.cells ensures s.cells[c].history != [] { assert CellOk(s, c); }
    var m := FromListing(entries);
    assert forall e | e in entries :: IsCurrent(s, e);
    FromListingContent(entries, s);
    forall c | c in m ensures Listed(s, p, c) { ListedIsLive(s, p, entries, c); }
    forall c | Listed(s, p, c) ensures c in m { LiveIsListed(s, p, entries, c); }
  }

  /** For every namespace but "*", a listing shows exactly the live entries whose changes a
      watcher of that namespace is told about. */
  lemma ListedIffWatched(s: Store, p: string, entries: seq<KVEntry>, c: Name)
    requires WellFormed(s) && IsListing(s, p, entries) && p != "*" && Live(s, c)
    ensures s.cells[c].Current() in entries <==> MatchesNamespace(p, c.0)
  {
    WatchAgreesWithList(p, c.0);
    assert CellOk(s, c);
  }

  /** Set inserts, delete removes; anything else is ignored. */
  function ApplyEvent(r: Replica, e: Event): Replica {
    match e.action
    case SetAction => if e.entry.Some? then r[(e.namespace, e.key) := e.entry.value] else r
    case DeleteAction => r - {(e.namespace, e.key)}
    case NoAction => r
  }

  function Fold(r: Replica, es: seq<Event>): Replica {
    if es == [] then r else ApplyEvent(Fold(r, es[..|es| - 1]), es[|es| - 1])
  }

  lemma {:induction false} FoldConcat(r: Replica, a: seq<Event>, b: seq<Event>)
    ensures Fold(r, a + b) == Fold(Fold(r, a), b)
  {
    if b == [] {
      assert a + b == a;
    } else {
      assert (a + b)[..|a + b| - 1] == a + b[..|b| - 1];
      FoldConcat(r, a, b[..|b| - 1]);
    }
  }

  lemma {:induction false} MatchingConcat(w: string, a: seq<Event>, b: seq<Event>)
    ensures Matching(w, a + b) == Matching(w, a) + Matching(w, b)
  {
    if b == [] {
      assert a + b == a;
    } else {
      assert (a + b)[..|a + b| - 1] == a + b[..|b| - 1];
      MatchingConcat(w, a, b[..|b| - 1]);
    }
  }

  predicate Concerns(e: Event, c: Name) {
    (e.namespace, e.key) == c && (e.action.DeleteAction? || (e.action.SetAction? && e.entry.Some?))
  }

  /** In a replay a name that no set or delete concerns is as it was. */
  lemma {:induction false} OtherNamesKept(r: Replica, es: seq<Event>, c: Name)
    requires forall i | 0 <= i < |es| :: !Concerns(es[i], c)
    ensures (c in Fold(r, es) <==> c in r) && (c in r ==> Fold(r, es)[c] == r[c])
  {
    if es != [] {
      OtherNamesKept(r, es[..|es| - 1], c);
      assert !Concerns(es[|es| - 1], c);
    }
  }

  /** The last set or delete of a name decides: after a set the replica holds that entry, after a
      delete nothing. */
  lemma {:induction false} LastEventDecides(r: Replica, es: seq<Event>, c: Name, i: nat)
    requires i < |es| && Concerns(es[i], c) && forall j | i < j < |es| :: !Concerns(es[j], c)
    ensures es[i].action.SetAction? ==> c in Fold(r, es) && Fold(r, es)[c] == es[i].entry.value
    ensures es[i].action.DeleteAction? ==> c !in Fold(r, es)
  {
    var n := |es| - 1;
    if i < n {
      LastEventDecides(r, es[..n], c, i);
      assert !Concerns(es[n], c);
    }
  }

  // ---- The events of an operation ----

  function SetEvent(e: KVEntry): Event { Event(SetAction, e.namespace, e.key, Some(e)) }

  function DeleteEvent(ns: string, key: string): Event { Event(DeleteAction, ns, key, None) }

  function LiveKeys(s: Store, ns: string): set<string> {
    set c | c in s.cells && c.0 == ns && Live(s, c) :: c.1
  }

  function DeleteEvents(ns: string, keys: seq<string>): (es: seq<Event>)
    ensures |es| == |keys| && forall i | 0 <= i < |es| :: es[i] == DeleteEvent(ns, keys[i])
  {
    seq(|keys|, i requires 0 <= i < |keys| => DeleteEvent(ns, keys[i]))
  }

  /** What the write handlers notify after the operation; nothing if it was refused. */
  function EventsOf(s: Store, op: Op): seq<Event> {
    match op
    case Set(e, clock) =>
      if ValidNamespace(e.namespace) && ValidKey(e.key) then [SetEvent(CellAfterSet(s, e, clock.now).Current())] else []
    case Delete(c, now) => if c in s.cells then [DeleteEvent(c.0, c.1)] else []
    case DeleteNamespace(ns) => if ns in s.namespaces then DeleteEvents(ns, SortedKeys(LiveKeys(s, ns))) else []
  }

  /** The engine never stores an entry that is already marked deleted. */
  predicate EngineOp(op: Op) { op.Set? ==> !op.entry.isDeleted }

  lemma FoldOne(r: Replica, w: string, e: Event)
    ensures Fold(r, [e]) == ApplyEvent(r, e)
    ensures Matching(w, [e]) == if MatchesNamespace(w, e.namespace) then [e] else []
    ensures Fold(r, Matching(w, [e])) == if MatchesNamespace(w, e.namespace) then ApplyEvent(r, e) else r
  {
    assert [e][..0] == [];
    assert Fold(r, [e][..0]) == r;
    assert Matching(w, [e][..0]) == [];
    assert Matching(w, [e]) == [] + if MatchesNamespace(w, e.namespace) then [e] else [];
  }

  ghost function NamesOf(ns: string, keys: seq<string>): (names: set<Name>)
    ensures forall c :: c in names <==> c.0 == ns && c.1 in keys
  {
    set k | k in keys :: (ns, k)
  }

  lemma {:induction false} FoldDeletes(r: Replica, w: string, ns: string, keys: seq<string>)
    ensures Fold(r, Matching(w, DeleteEvents(ns, keys))) ==
      if MatchesNamespace(w, ns) then r - NamesOf(ns, keys) else r
  {
    if keys != [] {
      var n := |keys| - 1;
      FoldDeletes(r, w, ns, keys[..n]);
      DeletesStep(r, w, ns, keys[..n], keys[n]);
      assert keys == keys[..n] + [keys[n]];
      NamesGrow(ns, keys[..n], keys[n]);
    }
  }

  lemma NamesGrow(ns: string, keys: seq<string>, key: string)
    ensures NamesOf(ns, keys + [key]) == NamesOf(ns, keys) + {(ns, key)}
  {
  }

  lemma DeletesStep(r: Replica, w: string, ns: string, keys: seq<string>, key: string)
    ensures var before := Fold(r, Matching(w, DeleteEvents(ns, keys)));
      Fold(r, Matching(w, DeleteEvents(ns, keys + [key]))) ==
        if MatchesNamespace(w, ns) then before - {(ns, key)} else before
  {
    var pre, last := DeleteEvents(ns, keys), DeleteEvent(ns, key);
    assert DeleteEvents(ns, keys + [key]) == pre + [last];
    MatchingConcat(w, pre, [last]);
    FoldConcat(r, Matching(w, pre), Matching(w, [last]));
    FoldOne(Fold(r, Matching(w, pre)), w, last);
  }

  lemma LiveAfterSet(s: Store, e: KVEntry, clock: Clock, w: string)
    requires !e.isDeleted
    ensures LiveMap(SetStore(s, e, clock), w) ==
      if Covers(w, e.namespace) then LiveMap(s, w)[(e.namespace, e.key) := CellAfterSet(s, e, clock.now).Current()]
      else LiveMap(s, w)
  {
  }

  lemma LiveAfterDelete(s: Store, c: Name, now: Time, w: string)
    ensures LiveMap(DeleteStore(s, c, now), w) == LiveMap(s, w) - {c}
  {
  }

  lemma LiveAfterErase(s: Store, ns: string, w: string)
    ensures LiveMap(EraseStore(s, ns), w) == LiveMap(s, w) - NamesOf(ns, SortedKeys(LiveKeys(s, ns)))
  {
    var gone := NamesOf(ns, SortedKeys(LiveKeys(s, ns)));
    forall c | c in LiveMap(s, w) ensures c in gone <==> c.0 == ns {
      assert c.0 == ns ==> c.1 in LiveKeys(s, ns);
    }
  }

  lemma ReplaySet(s: Store, e: KVEntry, clock: Clock, w: string)
    requires w != "*" && !e.isDeleted
    ensures Fold(LiveMap(s, w), Matching(w, EventsOf(s, Op.Set(e, clock)))) == LiveMap(Step(s, Op.Set(e, clock)), w)
  {
    WatchAgreesWithList(w, e.namespace);
    FoldOne(LiveMap(s, w), w, SetEvent(CellAfterSet(s, e, clock.now).Current()));
    LiveAfterSet(s, e, clock, w);
  }

  lemma WatchedAfterDelete(s: Store, c: Name, now: Time, w: string)
    requires w != "*"
    ensures LiveMap(DeleteStore(s, c, now), w) ==
      if MatchesNamespace(w, c.0) then LiveMap(s, w) - {c} else LiveMap(s, w)
  {
    WatchAgreesWithList(w, c.0);
    LiveAfterDelete(s, c, now, w);
    assert !Covers(w, c.0) ==> c !in LiveMap(s, w);
  }

  lemma ReplayDelete(s: Store, c: Name, now: Time, w: string)
    requires w != "*"
    ensures Fold(LiveMap(s, w), Matching(w, EventsOf(s, Op.Delete(c, now)))) == LiveMap(Step(s, Op.Delete(c, now)), w)
  {
    FoldOne(LiveMap(s, w), w, DeleteEvent(c.0, c.1));
    if c in s.cells { WatchedAfterDelete(s, c, now, w); }
  }

  lemma UncoveredUnseen(s: Store, ns: string, keys: seq<string>, w: string)
    requires !Covers(w, ns)
    ensures LiveMap(s, w) - NamesOf(ns, keys) == LiveMap(s, w)
  {
    assert forall c | c in NamesOf(ns, keys) :: c !in LiveMap(s, w);
  }

  lemma WatchedAfterErase(s: Store, ns: string, w: string)
    requires w != "*"
    ensures LiveMap(EraseStore(s, ns), w) ==
      if MatchesNamespace(w, ns) then LiveMap(s, w) - NamesOf(ns, SortedKeys(LiveKeys(s, ns))) else LiveMap(s, w)
  {
    WatchAgreesWithList(w, ns);
    LiveAfterErase(s, ns, w);
    if !Covers(w, ns) { UncoveredUnseen(s, ns, SortedKeys(LiveKeys(s, ns)), w); }
  }

  lemma ReplayErase(s: Store, ns: string, w: string)
    requires w != "*"
    ensures var op := Op.DeleteNamespace(ns);
      Fold(LiveMap(s, w), Matching(w, EventsOf(s, op))) == LiveMap(Step(s, op), w)
  {
    if ns in s.namespaces {
      FoldDeletes(LiveMap(s, w), w, ns, SortedKeys(LiveKeys(s, ns)));
      WatchedAfterErase(s, ns, w);
    }
  }

  /** One operation: its matching events turn the old listing of `w` into the new one. */
  lemma StepReplay(s: Store, op: Op, w: string)
    requires w != "*" && EngineOp(op)
    ensures Fold(LiveMap(s, w), Matching(w, EventsOf(s, op))) == LiveMap(Step(s, op), w)
  {
    match op
    case Set(e, clock) => ReplaySet(s, e, clock, w);
    case Delete(c, now) => ReplayDelete(s, c, now, w);
    case DeleteNamespace(ns) => ReplayErase(s, ns, w);
  }

  function RunEvents(s: Store, ops: seq<Op>): seq<Event> {
    if ops == [] then [] else
    var pre := ops[..|ops| - 1];
    RunEvents(s, pre) + EventsOf(Run(s, pre), ops[|ops| - 1])
  }

  /** Replay over every serial run: folding the matching events over the listing taken at
      registration yields exactly the current listing of that namespace. */
  lemma {:induction false} RunReplay(s: Store, ops: seq<Op>, w: string)
    requires w != "*" && forall i | 0 <= i < |ops| :: EngineOp(ops[i])
    ensures Fold(LiveMap(s, w), Matching(w, RunEvents(s, ops))) == LiveMap(Run(s, ops), w)
  {
    if ops != [] {
      var pre, op := ops[..|ops| - 1], ops[|ops| - 1];
      RunReplay(s, pre, w);
      MatchingConcat(w, RunEvents(s, pre), EventsOf(Run(s, pre), op));
      FoldConcat(LiveMap(s, w), Matching(w, RunEvents(s, pre)), Matching(w, EventsOf(Run(s, pre), op)));
      StepReplay(Run(s, pre), op, w);
    }
  }

  /** A wildcard watcher is excluded for a reason: every event matches it, but listing "*"
      shows nothing. */
  lemma WildcardListingEmpty(s: Store)
    requires WellFormed(s)
    ensures LiveMap(s, "*") == map[]
  {
    forall c | c in s.cells ensures !Covers("*", c.0) {
      assert CellOk(s, c);
      WildcardCoversNone(c.0);
    }
  }

  lemma WildcardCoversNone(ns: string)
    requires ValidNamespace(ns)
    ensures !Covers("*", ns)
  {
    SegmentChars(ns);
    assert ns[0] != '*';
  }

  /** The replay result, name by name: a name is in the replica exactly while it is stored, not
      deleted and watched, with its current value. */
  lemma ReplayedName(s: Store, ops: seq<Op>, w: string, c: Name)
    requires w != "*" && (forall i | 0 <= i < |ops| :: EngineOp(ops[i])) && WellFormed(Run(s, ops))
    ensures var t, replica := Run(s, ops), Fold(LiveMap(s, w), Matching(w, RunEvents(s, ops)));
      && (c in replica <==> c in t.cells && !t.cells[c].deleted && (w == c.0 || w + "/" <= c.0))
      && (c in replica ==> t.cells[c].history != [] && replica[c] == t.cells[c].Current())
  {
    RunReplay(s, ops, w);
    assert CellOk(Run(s, ops), c);
  }

  /** What a write notifies: one event for a set, with the entry as it now stands; one for a delete;
      one for each key that was live in a deleted namespace, in byte order; none if refused. */
  lemma EventsOfWrites(s: Store, op: Op)
    ensures match op
      case Set(e, _) => EventsOf(s, op) ==
        if ValidNamespace(e.namespace) && ValidKey(e.key)
        then [Event(SetAction, e.namespace, e.key, Some(Step(s, op).cells[(e.namespace, e.key)].Current()))] else []
      case Delete(c, _) => EventsOf(s, op) == if c in s.cells then [Event(DeleteAction, c.0, c.1, None)] else []
      case DeleteNamespace(ns) =>
        && (ns !in s.namespaces ==> EventsOf(s, op) == [])
        && (ns in s.namespaces ==> forall e :: e in EventsOf(s, op) <==>
              e == Event(DeleteAction, ns, e.key, None) && (ns, e.key) in s.cells && Live(s, (ns, e.key)))
        && forall i, j | 0 <= i < j < |EventsOf(s, op)| :: Less(EventsOf(s, op)[i].key, EventsOf(s, op)[j].key)
  {
    if op.DeleteNamespace? && op.ns in s.namespaces {
      var keys := SortedKeys(LiveKeys(s, op.ns));
      SortedKeysAscending(LiveKeys(s, op.ns));
      forall e ensures e in EventsOf(s, op) <==>
        e == Event(DeleteAction, op.ns, e.key, None) && (op.ns, e.key) in s.cells && Live(s, (op.ns, e.key))
      {
        if e in EventsOf(s, op) {
          var i :| 0 <= i < |keys| && DeleteEvents(op.ns, keys)[i] == e;
          assert keys[i] in keys;
        }
        if e == DeleteEvent(op.ns, e.key) && (op.ns, e.key) in s.cells && Live(s, (op.ns, e.key)) {
          assert (op.ns, e.key).1 in LiveKeys(s, op.ns);
          assert e.key in keys;
          var i :| 0 <= i < |keys| && keys[i] == e.key;
          assert DeleteEvents(op.ns, keys)[i] == e;
        }
      }
    }
  }
}
