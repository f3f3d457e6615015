/** Encryption at rest: the stored store and the plaintext store seen through the engine. */
module Secrets {
  import opened Wrappers
  import opened Store

  /** Encryptor as a pair of functions; `nonce` is the randomness Encrypt draws, and None is
      an error. */
  datatype Crypto = Crypto(enc: (string, string) -> Option<string>, dec: string -> Option<string>)

  /** The assumption about the cryptography: what Encrypt produced decrypts to its plaintext. */
  ghost predicate RoundTrips(c: Crypto) {
    forall p, nonce :: c.enc(p, nonce).Some? ==> c.dec(c.enc(p, nonce).value) == Some(p)
  }

  /** A value as the engine's listing loops show it: an undecryptable secret stays as stored. */
  function Reveal(c: Crypto, kind: EntryType, value: string): string {
    if kind.Secret? && c.dec(value).Some? then c.dec(value).value else value
  }

  function RevealVersion(c: Crypto, v: Version): Version { v.(value := Reveal(c, v.kind, v.value)) }

  function RevealEntry(c: Crypto, e: KVEntry): KVEntry { e.(value := Reveal(c, e.kind, e.value)) }

  function RevealHistory(c: Crypto, h: seq<Version>): (r: seq<Version>)
    ensures |r| == |h| && forall i | 0 <= i < |r| :: r[i] == RevealVersion(c, h[i])
  {
    seq(|h|, i requires 0 <= i < |h| => RevealVersion(c, h[i]))
  }

  function RevealCell(c: Crypto, cell: Cell): Cell { cell.(history := RevealHistory(c, cell.history)) }

  /** The plaintext store. */
  function RevealStore(c: Crypto, s: Store): (r: Store)
    ensures r.namespaces == s.namespaces && r.cells.Keys == s.cells.Keys
  {
    Store(s.namespaces, map n | n in s.cells :: RevealCell(c, s.cells[n]))
  }

  predicate RecordReadable(c: Crypto, v: Version) { v.kind.Secret? ==> c.dec(v.value).Some? }

  predicate CellReadable(c: Crypto, s: Store, n: Name) {
    n in s.cells ==> forall i | 0 <= i < |s.cells[n].history| :: RecordReadable(c, s.cells[n].history[i])
  }

  /** Every stored secret decrypts. */
  ghost predicate Readable(c: Crypto, s: Store) {
    forall n :: CellReadable(c, s, n)
  }

  // ---- The operations commute with revealing ----

  lemma RevealWellFormed(c: Crypto, s: Store)
    requires WellFormed(s)
    ensures WellFormed(RevealStore(c, s))
  {
    forall n ensures NamespaceOk(RevealStore(c, s), n) { assert NamespaceOk(s, n); }
    forall n ensures CellOk(RevealStore(c, s), n) { assert CellOk(s, n); }
  }

  lemma RevealCurrent(c: Crypto, s: Store, n: Name)
    requires n in s.cells && s.cells[n].history != []
    ensures RevealStore(c, s).cells[n].Current() == RevealEntry(c, s.cells[n].Current())
    ensures Live(RevealStore(c, s), n) <==> Live(s, n)
    ensures CellReadable(c, s, n) && s.cells[n].Current().kind.Secret? ==> c.dec(s.cells[n].Current().value).Some?
  {
    assert CellReadable(c, s, n) ==> RecordReadable(c, s.cells[n].history[|s.cells[n].history| - 1]);
  }

  lemma RevealSet(c: Crypto, s: Store, stored: KVEntry, plain: string, clock: Clock)
    requires Reveal(c, stored.kind, stored.value) == plain
    ensures RevealStore(c, SetStore(s, stored, clock)) == SetStore(RevealStore(c, s), stored.(value := plain), clock)
  {
    var left := RevealStore(c, SetStore(s, stored, clock));
    var right := SetStore(RevealStore(c, s), stored.(value := plain), clock);
    RevealNewCell(c, s, stored, plain, clock.now);
    assert left.cells == right.cells;
  }

  lemma RevealNewCell(c: Crypto, s: Store, stored: KVEntry, plain: string, now: Time)
    requires Reveal(c, stored.kind, stored.value) == plain
    ensures RevealCell(c, CellAfterSet(s, stored, now)) == CellAfterSet(RevealStore(c, s), stored.(value := plain), now)
  {
    var record := NewRecord(s, stored, now);
    assert RevealHistory(c, History(s, (stored.namespace, stored.key)) + [record])
      == History(RevealStore(c, s), (stored.namespace, stored.key)) + [RevealVersion(c, record)];
  }

  lemma SetReadable(c: Crypto, s: Store, stored: KVEntry, clock: Clock)
    requires Readable(c, s) && (stored.kind.Secret? ==> c.dec(stored.value).Some?)
    ensures Readable(c, SetStore(s, stored, clock))
  {
    forall n ensures CellReadable(c, SetStore(s, stored, clock), n) {
      assert CellReadable(c, s, n);
    }
  }

  lemma RevealDelete(c: Crypto, s: Store, n: Name, now: Time)
    ensures RevealStore(c, DeleteStore(s, n, now)) == DeleteStore(RevealStore(c, s), n, now)
    ensures Readable(c, s) ==> Readable(c, DeleteStore(s, n, now))
  {
    assert RevealStore(c, DeleteStore(s, n, now)).cells == DeleteStore(RevealStore(c, s), n, now).cells;
    if Readable(c, s) {
      forall m ensures CellReadable(c, DeleteStore(s, n, now), m) { assert CellReadable(c, s, m); }
    }
  }

  lemma RevealErase(c: Crypto, s: Store, ns: string)
    ensures RevealStore(c, EraseStore(s, ns)) == EraseStore(RevealStore(c, s), ns)
    ensures Readable(c, s) ==> Readable(c, EraseStore(s, ns))
  {
    assert RevealStore(c, EraseStore(s, ns)).cells == EraseStore(RevealStore(c, s), ns).cells;
    if Readable(c, s) {
      forall m ensures CellReadable(c, EraseStore(s, ns), m) { assert CellReadable(c, s, m); }
    }
  }

  lemma RevealDeleteNamespace(c: Crypto, s: Store, ns: string)
    ensures var op := Op.DeleteNamespace(ns);
      && RevealStore(c, Step(s, op)) == Step(RevealStore(c, s), op)
      && (Readable(c, s) ==> Readable(c, Step(s, op)))
  {
    if ns in s.namespaces { RevealErase(c, s, ns); }
  }

  ghost function RevealEntries(c: Crypto, es: seq<KVEntry>): (r: seq<KVEntry>)
    ensures |r| == |es| && forall i | 0 <= i < |r| :: r[i] == RevealEntry(c, es[i])
  {
    seq(|es|, i requires 0 <= i < |es| => RevealEntry(c, es[i]))
  }

  /** Decrypting a listing entry by entry gives the listing of the plaintext store. */
  lemma RevealListing(c: Crypto, s: Store, p: string, es: seq<KVEntry>)
    requires IsListing(s, p, es) && WellFormed(s)
    ensures IsListing(RevealStore(c, s), p, RevealEntries(c, es))
  {
    var t, r := RevealStore(c, s), RevealEntries(c, es);
    assert EntryKeys(r) == EntryKeys(es);
    forall e | e in r
      ensures Listed(t, p, (e.namespace, e.key)) && e == t.cells[(e.namespace, e.key)].Current()
    {
      var i :| 0 <= i < |r| && r[i] == e;
      assert es[i] in es;
      RevealCurrent(c, s, (e.namespace, e.key));
    }
    forall n | Listed(t, p, n) ensures t.cells[n].Current() in r {
      RevealCurrent(c, s, n);
      assert s.cells[n].Current() in es;
      var i :| 0 <= i < |es| && es[i] == s.cells[n].Current();
      assert r[i] in r;
    }
  }
}
