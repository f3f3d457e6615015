/** The audit log bucket: keys made of a decimal timestamp and an identifier, read backwards
    in pages. */
module Audit {
  import opened ByteOrder
  import opened Names
  import opened Wrappers

  datatype AuditLogEntry = AuditLogEntry(
    id: string, timestamp: int, tokenId: string, action: string, namespace: string, key: string,
    success: bool, error: string)

  // ---- Keys ----

  /** %d of a non-negative number. */
  function Decimal(n: nat): (s: string)
    ensures s != ""
  {
    (if n < 10 then "" else Decimal(n / 10)) + [DigitChar(n % 10)]
  }

  function DecimalInt(v: int): string { if v >= 0 then Decimal(v) else "-" + Decimal(-v) }

  function LogKey(e: AuditLogEntry): string { DecimalInt(e.timestamp) + "_" + e.id }

  /** %d denotes the number. */
  lemma {:induction false} DecimalDenotes(n: nat)
    ensures Denoted(Decimal(n)) == n
  {
    var s := Decimal(n);
    assert s[|s| - 1] == DigitChar(n % 10) && s[..|s| - 1] == if n < 10 then "" else Decimal(n / 10);
    if n >= 10 { DecimalDenotes(n / 10); }
  }

  lemma {:induction false} DecimalInjective(n: nat, m: nat)
    ensures Decimal(n) == Decimal(m) ==> n == m
  {
    var a, b := Decimal(n), Decimal(m);
    assert a[|a| - 1] == DigitChar(n % 10) && b[|b| - 1] == DigitChar(m % 10);
    assert a[..|a| - 1] == if n < 10 then "" else Decimal(n / 10);
    assert b[..|b| - 1] == if m < 10 then "" else Decimal(m / 10);
    if n >= 10 && m >= 10 { DecimalInjective(n / 10, m / 10); }
  }

  lemma {:induction false} DecimalChars(n: nat)
    ensures forall i | 0 <= i < |Decimal(n)| :: '0' <= Decimal(n)[i] <= '9'
  {
    if n >= 10 { DecimalChars(n / 10); }
  }

  lemma DecimalIntChars(v: int)
    ensures '_' !in DecimalInt(v) && (DecimalInt(v)[0] == '-' <==> v < 0)
  {
    DecimalChars(if v >= 0 then v else -v);
  }

  lemma DecimalIntInjective(v: int, w: int)
    ensures DecimalInt(v) == DecimalInt(w) ==> v == w
  {
    DecimalIntChars(v);
    DecimalIntChars(w);
    DecimalInjective(if v >= 0 then v else -v, if w >= 0 then w else -w);
    assert v < 0 ==> DecimalInt(v)[1..] == Decimal(-v);
    assert w < 0 ==> DecimalInt(w)[1..] == Decimal(-w);
  }

  /** Two entries share a key only if they agree on time and identifier, so entries never
      overwrite one another while identifiers differ. */
  lemma LogKeyInjective(a: AuditLogEntry, b: AuditLogEntry)
    ensures LogKey(a) == LogKey(b) <==> a.timestamp == b.timestamp && a.id == b.id
  {
    DecimalIntChars(a.timestamp);
    DecimalIntChars(b.timestamp);
    DecimalIntInjective(a.timestamp, b.timestamp);
    if LogKey(a) == LogKey(b) { FirstUnderscore(DecimalInt(a.timestamp), a.id, DecimalInt(b.timestamp), b.id); }
  }

  lemma FirstUnderscore(p: string, x: string, q: string, y: string)
    requires '_' !in p && '_' !in q && p + "_" + x == q + "_" + y
    ensures p == q && x == y
  {
    var s, t := p + "_" + x, q + "_" + y;
    assert s[|p|] == '_' && t[|q|] == '_';
    assert forall i | 0 <= i < |p| :: s[i] == p[i];
    assert forall i | 0 <= i < |q| :: t[i] == q[i];
    assert |p| == |q|;
    assert p == s[..|p|] && q == t[..|q|] && x == s[|p| + 1..] && y == t[|q| + 1..];
  }

  /** A number with exactly `w` digits prints as its `w` digits. */
  lemma {:induction false} DecimalIsDigits(n: nat, w: nat)
    requires w >= 1 && n < Pow(10, w) && (w > 1 ==> n >= Pow(10, w - 1))
    ensures Decimal(n) == Digits(n, w)
  {
    DigitsStep(n, w);
    if w > 1 {
      assert Pow(10, w - 1) == 10 * Pow(10, w - 2);
      assert Pow(10, w) == 10 * Pow(10, w - 1);
      DecimalIsDigits(n / 10, w - 1);
    } else {
      assert Digits(n / 10, 0) == "";
    }
  }

  /** Nanosecond timestamps of 19 digits, which an int64 holds from 2001 on. */
  predicate Digits19(t: int) { 1_000_000_000_000_000_000 <= t <= MAX_INT64 }

  lemma Digits19Decimal(t: int)
    requires Digits19(t)
    ensures DecimalInt(t) == Digits(t, 19) && t < Pow(10, 19)
  {
    Int64Width();
    assert Pow(10, 6) == 1_000_000;
    assert Pow(10, 12) == 1_000_000 * Pow(10, 6);
    assert Pow(10, 18) == 1_000_000 * Pow(10, 12);
    DecimalIsDigits(t, 19);
  }

  /** Among 19-digit timestamps, key order never contradicts time order. */
  lemma KeyOrderIsTimeOrder(a: AuditLogEntry, b: AuditLogEntry)
    requires Digits19(a.timestamp) && Digits19(b.timestamp)
    ensures a.timestamp < b.timestamp ==> Less(LogKey(a), LogKey(b))
    ensures Less(LogKey(a), LogKey(b)) ==> a.timestamp <= b.timestamp
  {
    OlderFirst(a, b);
    OlderFirst(b, a);
    if Less(LogKey(a), LogKey(b)) && Less(LogKey(b), LogKey(a)) {
      LessTransitive(LogKey(a), LogKey(b), LogKey(a));
      LessIrreflexive(LogKey(a));
    }
  }

  lemma OlderFirst(a: AuditLogEntry, b: AuditLogEntry)
    requires Digits19(a.timestamp) && Digits19(b.timestamp)
    ensures a.timestamp < b.timestamp ==> Less(LogKey(a), LogKey(b))
  {
    Digits19Decimal(a.timestamp);
    Digits19Decimal(b.timestamp);
    if a.timestamp < b.timestamp { SmallerFirst(a, b, 19); }
  }

  lemma SmallerFirst(a: AuditLogEntry, b: AuditLogEntry, w: nat)
    requires 0 <= a.timestamp < b.timestamp < Pow(10, w)
    requires DecimalInt(a.timestamp) == Digits(a.timestamp, w) && DecimalInt(b.timestamp) == Digits(b.timestamp, w)
    ensures Less(LogKey(a), LogKey(b))
  {
    DigitsOrder(a.timestamp, b.timestamp, w);
    LessExtends(Digits(a.timestamp, w), Digits(b.timestamp, w), "_" + a.id, "_" + b.id);
    assert LogKey(a) == Digits(a.timestamp, w) + ("_" + a.id);
    assert LogKey(b) == Digits(b.timestamp, w) + ("_" + b.id);
  }

  // ---- The filtered log, newest first ----

  type Log = map<string, AuditLogEntry>

  /** Every entry is stored under its own key. */
  ghost predicate Keyed(log: Log) {
    forall k :: KeyedAt(log, k)
  }

  predicate KeyedAt(log: Log, k: string) { k in log ==> k == LogKey(log[k]) }

  predicate Wanted(e: AuditLogEntry, ns: string) { ns == "" || e.namespace == ns }

  predicate Matches(log: Log, k: string, ns: string) { k in log && Wanted(log[k], ns) }

  /** The matching entries among the first `n` keys, the last of them first. */
  function Newest(log: Log, keys: seq<string>, n: nat, ns: string): seq<AuditLogEntry>
    requires n <= |keys|
  {
    if n == 0 then []
    else if Matches(log, keys[n - 1], ns) then [log[keys[n - 1]]] + Newest(log, keys, n - 1, ns)
    else Newest(log, keys, n - 1, ns)
  }

  /** The whole filtered log, newest first. */
  function Filtered(log: Log, ns: string): seq<AuditLogEntry> {
    Newest(log, SortedKeys(log.Keys), |log.Keys|, ns)
  }

  lemma {:induction false} NewestContent(log: Log, keys: seq<string>, n: nat, ns: string)
    requires n <= |keys|
    ensures forall e | e in Newest(log, keys, n, ns) ::
      exists i :: 0 <= i < n && Matches(log, keys[i], ns) && log[keys[i]] == e
    ensures forall i | 0 <= i < n && Matches(log, keys[i], ns) :: log[keys[i]] in Newest(log, keys, n, ns)
  {
    if n > 0 { NewestContent(log, keys, n - 1, ns); }
  }

  predicate DescendsAt(r: seq<AuditLogEntry>, i: int, j: int) {
    0 <= i < j < |r| ==> Less(LogKey(r[j]), LogKey(r[i]))
  }

  ghost predicate Descending(r: seq<AuditLogEntry>) { forall i, j :: DescendsAt(r, i, j) }

  lemma NewestBelow(log: Log, keys: seq<string>, n: nat, ns: string, e: AuditLogEntry)
    requires n < |keys| && Ascending(keys) && Matches(log, keys[n], ns) && Keyed(log)
    requires e in Newest(log, keys, n, ns)
    ensures Less(LogKey(e), LogKey(log[keys[n]]))
  {
    NewestContent(log, keys, n, ns);
    var i :| 0 <= i < n && Matches(log, keys[i], ns) && log[keys[i]] == e;
    assert KeyedAt(log, keys[i]) && KeyedAt(log, keys[n]);
  }

  lemma DescendingCons(e: AuditLogEntry, rest: seq<AuditLogEntry>)
    requires Descending(rest) && forall x | x in rest :: Less(LogKey(x), LogKey(e))
    ensures Descending([e] + rest)
  {
    var r := [e] + rest;
    forall i, j ensures DescendsAt(r, i, j) {
      assert DescendsAt(rest, i - 1, j - 1);
      if 0 <= i < j < |r| { assert r[j] == rest[j - 1] && r[j] in rest; }
    }
  }

  lemma NextDescends(log: Log, keys: seq<string>, n: nat, ns: string)
    requires n < |keys| && Ascending(keys) && Matches(log, keys[n], ns) && Keyed(log)
    requires Descending(Newest(log, keys, n, ns))
    ensures Descending(Newest(log, keys, n + 1, ns))
  {
    var rest := Newest(log, keys, n, ns);
    forall x | x in rest ensures Less(LogKey(x), LogKey(log[keys[n]])) { NewestBelow(log, keys, n, ns, x); }
    DescendingCons(log[keys[n]], rest);
  }

  lemma {:induction false} NewestDescending(log: Log, keys: seq<string>, n: nat, ns: string)
    requires n <= |keys| && Ascending(keys) && Keyed(log)
    ensures Descending(Newest(log, keys, n, ns))
  {
    if n > 0 {
      var i := n - 1;
      NewestDescending(log, keys, i, ns);
      if Matches(log, keys[i], ns) { NextDescends(log, keys, i, ns); }
    }
  }

  lemma FilteredContent(log: Log, ns: string)
    requires Keyed(log)
    ensures forall e :: e in Filtered(log, ns) <==> Matches(log, LogKey(e), ns) && log[LogKey(e)] == e
  {
    var keys, r := SortedKeys(log.Keys), Filtered(log, ns);
    NewestContent(log, keys, |keys|, ns);
    forall e ensures e in r <==> Matches(log, LogKey(e), ns) && log[LogKey(e)] == e {
      if e in r {
        var i :| 0 <= i < |keys| && Matches(log, keys[i], ns) && log[keys[i]] == e;
        assert KeyedAt(log, keys[i]);
      }
      if Matches(log, LogKey(e), ns) {
        assert LogKey(e) in keys;
        var i :| 0 <= i < |keys| && keys[i] == LogKey(e);
      }
    }
  }

  predicate LongStamped(log: Log) { forall k | k in log :: Digits19(log[k].timestamp) }

  /** The filter: exactly the stored entries of the asked namespace, or all if none is asked. */
  lemma FilteredExact(log: Log, ns: string, e: AuditLogEntry)
    requires Keyed(log)
    ensures e in Filtered(log, ns) <==>
      LogKey(e) in log && log[LogKey(e)] == e && (ns == "" || e.namespace == ns)
  {
    FilteredContent(log, ns);
  }

  /** The stored keys of the asked namespace among the first `n`. */
  ghost function KeysFor(log: Log, keys: seq<string>, n: nat, ns: string): set<string>
    requires n <= |keys|
  {
    set i | 0 <= i < n && keys[i] in log && (ns == "" || log[keys[i]].namespace == ns) :: keys[i]
  }

  lemma KeysForStep(log: Log, keys: seq<string>, n: nat, ns: string)
    requires n < |keys| && Ascending(keys)
    ensures |KeysFor(log, keys, n + 1, ns)| == |KeysFor(log, keys, n, ns)| + if Matches(log, keys[n], ns) then 1 else 0
  {
    LessIrreflexive(keys[n]);
    assert keys[n] !in KeysFor(log, keys, n, ns);
    assert KeysFor(log, keys, n + 1, ns) ==
      KeysFor(log, keys, n, ns) + if Matches(log, keys[n], ns) then {keys[n]} else {};
  }

  lemma NewestLength(log: Log, keys: seq<string>, n: nat, ns: string)
    requires n < |keys|
    ensures |Newest(log, keys, n + 1, ns)| == |Newest(log, keys, n, ns)| + if Matches(log, keys[n], ns) then 1 else 0
  {
  }

  lemma {:induction false} NewestCounts(log: Log, keys: seq<string>, n: nat, ns: string)
    requires n <= |keys| && Ascending(keys)
    ensures |Newest(log, keys, n, ns)| == |KeysFor(log, keys, n, ns)|
  {
    if n > 0 {
      var i := n - 1;
      NewestCounts(log, keys, i, ns);
      KeysForStep(log, keys, i, ns);
      NewestLength(log, keys, i, ns);
    }
  }

  /** The filtered log is as long as there are stored entries of the asked namespace. */
  lemma FilteredCounts(log: Log, ns: string)
    ensures |Filtered(log, ns)| == |set k | k in log && (ns == "" || log[k].namespace == ns)|
  {
    var keys := SortedKeys(log.Keys);
    SortedKeysAscending(log.Keys);
    NewestCounts(log, keys, |keys|, ns);
    assert (set k | k in log && (ns == "" || log[k].namespace == ns)) == KeysFor(log, keys, |keys|, ns);
  }

  /** The filtered log holds every matching entry exactly once, with timestamps that never increase. */
  lemma FilteredIsNewestFirst(log: Log, ns: string)
    requires Keyed(log)
    ensures var r := Filtered(log, ns);
      && (forall e :: e in r <==> LogKey(e) in log && log[LogKey(e)] == e && (ns == "" || e.namespace == ns))
      && (forall i, j | 0 <= i < j < |r| :: r[i] != r[j])
      && (LongStamped(log) ==> forall i, j | 0 <= i < j < |r| :: r[i].timestamp >= r[j].timestamp)
  {
    var r := Filtered(log, ns);
    FilteredContent(log, ns);
    SortedKeysAscending(log.Keys);
    NewestDescending(log, SortedKeys(log.Keys), |log.Keys|, ns);
    forall i, j | 0 <= i < j < |r|
      ensures r[i] != r[j]
      ensures LongStamped(log) ==> r[i].timestamp >= r[j].timestamp
    {
      LessIrreflexive(LogKey(r[i]));
      assert DescendsAt(r, i, j);
      assert r[i] in r && r[j] in r;
      if LongStamped(log) { KeyOrderIsTimeOrder(r[j], r[i]); }
    }
  }

  // ---- Pages ----

  function Min(a: int, b: int): int { if a < b then a else b }

  /** The page of at most `limit` entries after the first `offset`; a limit of 0 means no limit. */
  function Page(all: seq<AuditLogEntry>, limit: nat, offset: nat): seq<AuditLogEntry> {
    if offset >= |all| then [] else
    all[offset..if limit == 0 then |all| else Min(offset + limit, |all|)]
  }

  /** A page holds the entries from the offset on, in order, as many as the limit allows. */
  lemma PageExact(all: seq<AuditLogEntry>, limit: nat, offset: nat)
    ensures var page := Page(all, limit, offset);
      && (offset >= |all| ==> page == [])
      && (offset < |all| && (limit == 0 || offset + limit >= |all|) ==> |page| == |all| - offset)
      && (offset < |all| && limit > 0 && offset + limit < |all| ==> |page| == limit)
      && forall i | 0 <= i < |page| :: page[i] == all[offset + i]
  {
  }

  /** Pages 0, 1, ..., n - 1 of size `limit`, one after the other. */
  function Pages(all: seq<AuditLogEntry>, limit: nat, n: nat): seq<AuditLogEntry> {
    if n == 0 then [] else Pages(all, limit, n - 1) + Page(all, limit, (n - 1) * limit)
  }

  /** The pages at offsets 0, L, 2L, ... concatenate to the log, each entry once. */
  lemma {:induction false} PagesCoverLog(all: seq<AuditLogEntry>, limit: nat, n: nat)
    requires limit > 0
    ensures Pages(all, limit, n) == all[..Min(n * limit, |all|)]
    ensures n * limit >= |all| ==> Pages(all, limit, n) == all
  {
    if n > 0 {
      PagesCoverLog(all, limit, n - 1);
      assert n * limit == (n - 1) * limit + limit;
    }
  }

  /** has_more, computed from the total, holds exactly when the next page is not empty. */
  lemma HasMoreExact(all: seq<AuditLogEntry>, limit: nat, offset: nat)
    requires limit > 0
    ensures offset + |Page(all, limit, offset)| < |all| <==> Page(all, limit, offset + limit) != []
  {
  }

  lemma AscendingConcat(a: seq<string>, b: seq<string>)
    requires Ascending(a) && Ascending(b) && forall x, y | x in a && y in b :: Less(x, y)
    ensures Ascending(a + b)
  {
    forall i, j | 0 <= i < j < |a + b| ensures Less((a + b)[i], (a + b)[j]) {
      if i < |a| <= j { assert a[i] in a && b[j - |a|] in b; }
    }
  }

  /** The filtered log does not depend on how its keys were sorted. */
  lemma FilteredBy(log: Log, keys: seq<string>, ns: string)
    requires Ascending(keys) && forall k :: k in keys <==> k in log
    ensures Filtered(log, ns) == Newest(log, keys, |keys|, ns)
  {
    SortedKeysAscending(log.Keys);
    AscendingUnique(keys, SortedKeys(log.Keys));
  }

  lemma SortedOrder(keys: set<string>) returns (order: seq<string>)
    ensures Ascending(order) && forall k :: k in order <==> k in keys
  {
    order := SortedKeys(keys);
    SortedKeysAscending(keys);
  }

  lemma PageIsOfNamespace(log: Log, ns: string, limit: nat, offset: nat)
    requires Keyed(log)
    ensures forall e | e in Page(Filtered(log, ns), limit, offset) :: e in log.Values && (ns == "" || e.namespace == ns)
  {
    forall e | e in Page(Filtered(log, ns), limit, offset) ensures e in log.Values && (ns == "" || e.namespace == ns) {
      assert e in Filtered(log, ns);
      FilteredExact(log, ns, e);
    }
  }

  /** Walking `a + b` backwards walks `b` and then `a`. */
  lemma {:induction false} NewestConcat(log: Log, a: seq<string>, b: seq<string>, n: nat, ns: string)
    requires n <= |b|
    ensures Newest(log, a + b, |a| + n, ns) == Newest(log, b, n, ns) + Newest(log, a, |a|, ns)
  {
    if n > 0 {
      NewestConcat(log, a, b, n - 1, ns);
      assert (a + b)[|a| + n - 1] == b[n - 1];
    } else {
      NewestOfPrefix(log, a, b, |a|, ns);
    }
  }

  lemma {:induction false} NewestOfPrefix(log: Log, a: seq<string>, b: seq<string>, n: nat, ns: string)
    requires n <= |a|
    ensures Newest(log, a + b, n, ns) == Newest(log, a, n, ns)
  {
    if n > 0 { NewestOfPrefix(log, a, b, n - 1, ns); }
  }

  predicate SameAt(log: Log, other: Log, k: string) {
    (k in log <==> k in other) && (k in log ==> log[k] == other[k])
  }

  predicate AgreeOn(log: Log, other: Log, keys: seq<string>) { forall k | k in keys :: SameAt(log, other, k) }

  /** The walk depends only on what the logs hold under the keys walked. */
  lemma {:induction false} NewestAgrees(log: Log, other: Log, keys: seq<string>, n: nat, ns: string)
    requires n <= |keys| && AgreeOn(log, other, keys)
    ensures Newest(log, keys, n, ns) == Newest(other, keys, n, ns)
  {
    if n > 0 {
      NewestAgrees(log, other, keys, n - 1, ns);
      assert SameAt(log, other, keys[n - 1]);
    }
  }

  /** The walk over two parts of a log, the older keys in `a`. */
  lemma NewestOfParts(whole: Log, older: Log, newer: Log, a: seq<string>, b: seq<string>, ns: string)
    requires AgreeOn(older, whole, a) && AgreeOn(newer, whole, b)
    ensures Newest(whole, a + b, |a + b|, ns) == Newest(newer, b, |b|, ns) + Newest(older, a, |a|, ns)
  {
    NewestConcat(whole, a, b, |b|, ns);
    NewestAgrees(older, whole, a, |a|, ns);
    NewestAgrees(newer, whole, b, |b|, ns);
  }

  lemma UnionAgrees(log: Log, newer: Log, a: seq<string>, b: seq<string>)
    requires (forall k | k in a :: k !in newer) && (forall k | k in b :: k in newer)
    ensures AgreeOn(log, log + newer, a) && AgreeOn(newer, log + newer, b)
  {
  }

  predicate AboveAt(log: Log, newer: Log, k: string, k': string) { k in log && k' in newer ==> Less(k, k') }

  /** Every key of `newer` is above every key of `log`. */
  ghost predicate AllAbove(log: Log, newer: Log) { forall k, k' :: AboveAt(log, newer, k, k') }

  /** Entries with newer keys go in front of the filtered log. */
  lemma NewerGoInFront(log: Log, newer: Log, ns: string)
    requires AllAbove(log, newer)
    ensures Filtered(log + newer, ns) == Filtered(newer, ns) + Filtered(log, ns)
  {
    var a := SortedOrder(log.Keys);
    var b := SortedOrder(newer.Keys);
    forall x, y | x in a && y in b ensures Less(x, y) { assert AboveAt(log, newer, x, y); }
    AscendingConcat(a, b);
    FilteredBy(log, a, ns);
    FilteredBy(newer, b, ns);
    forall k | k in log ensures k !in newer {
      assert AboveAt(log, newer, k, k);
      LessIrreflexive(k);
    }
    UnionAgrees(log, newer, a, b);
    NewestOfParts(log + newer, log, newer, a, b, ns);
    FilteredBy(log + newer, a + b, ns);
  }

  /** Going on at `offset`, a reader of `before` who now reads `after` misses nothing. */
  predicate StillToCome(before: seq<AuditLogEntry>, after: seq<AuditLogEntry>, offset: nat) {
    offset <= |before| ==> offset <= |after| && forall e | e in before[offset..] :: e in after[offset..]
  }

  /** Every page of `before` is the page of `after` that starts `k` entries later. */
  ghost predicate PagesShift(before: seq<AuditLogEntry>, after: seq<AuditLogEntry>, k: nat) {
    forall limit: nat, offset: nat :: Page(after, limit, offset + k) == Page(before, limit, offset)
  }

  lemma FrontShiftsPages(front: seq<AuditLogEntry>, before: seq<AuditLogEntry>)
    ensures PagesShift(before, front + before, |front|)
  {
  }

  /** k newer matching entries shift every page by k. */
  lemma NewerShiftPages(log: Log, newer: Log, ns: string)
    requires AllAbove(log, newer)
    ensures PagesShift(Filtered(log, ns), Filtered(log + newer, ns), |Filtered(newer, ns)|)
  {
    NewerGoInFront(log, newer, ns);
    FrontShiftsPages(Filtered(newer, ns), Filtered(log, ns));
  }

  predicate AllLater(log: Log, newer: Log) {
    forall k, k' | k in log && k' in newer :: log[k].timestamp < newer[k'].timestamp
  }

  /** Entries with later 19-digit timestamps are such entries. */
  lemma LaterShiftPages(log: Log, newer: Log, ns: string)
    requires Keyed(log) && Keyed(newer) && LongStamped(log) && LongStamped(newer) && AllLater(log, newer)
    ensures PagesShift(Filtered(log, ns), Filtered(log + newer, ns), |Filtered(newer, ns)|)
  {
    forall k, k' ensures AboveAt(log, newer, k, k') {
      assert KeyedAt(log, k) && KeyedAt(newer, k');
      if k in log && k' in newer { KeyOrderIsTimeOrder(log[k], newer[k']); }
    }
    NewerShiftPages(log, newer, ns);
  }

  /** One more entry goes somewhere into the filtered log and leaves the rest as it was. */
  lemma EntryGoesBetween(log: Log, k: string, e: AuditLogEntry, ns: string)
    returns (front: seq<AuditLogEntry>, back: seq<AuditLogEntry>)
    requires k !in log
    ensures Filtered(log, ns) == front + back
    ensures Filtered(log[k := e], ns) == front + (if Wanted(e, ns) then [e] else []) + back
  {
    var a, b := SplitOrder(log, k, e, ns);
    NewestOfParts(log, log, log, a, b, ns);
    InsertedBetween(log, k, e, a, b, ns);
    front, back := Newest(log, b, |b|, ns), Newest(log, a, |a|, ns);
  }

  lemma InsertedBetween(log: Log, k: string, e: AuditLogEntry, a: seq<string>, b: seq<string>, ns: string)
    requires k !in a && k !in b
    ensures Newest(log[k := e], a + [k] + b, |a + [k] + b|, ns) ==
      Newest(log, b, |b|, ns) + (if Wanted(e, ns) then [e] else []) + Newest(log, a, |a|, ns)
  {
    var after := log[k := e];
    assert AgreeOn(log, after, a) && AgreeOn(log, after, b);
    NewestOfParts(after, after, log, a + [k], b, ns);
    NewestOfParts(after, log, after, a, [k], ns);
    NewestOfOne(after, k, ns);
  }

  /** Key orders of a log without and with one more key. */
  lemma SplitOrder(log: Log, k: string, e: AuditLogEntry, ns: string) returns (a: seq<string>, b: seq<string>)
    requires k !in log
    ensures k !in a && k !in b
    ensures Filtered(log, ns) == Newest(log, a + b, |a + b|, ns)
    ensures Filtered(log[k := e], ns) == Newest(log[k := e], a + [k] + b, |a + [k] + b|, ns)
  {
    a := SortedOrder(set x | x in log && Less(x, k));
    b := SortedOrder(set x | x in log && Less(k, x));
    SplitAt(log.Keys, k, a, b);
    FilteredBy(log, a + b, ns);
    FilteredBy(log[k := e], a + [k] + b, ns);
  }

  lemma NewestOfOne(log: Log, k: string, ns: string)
    requires k in log
    ensures Newest(log, [k], 1, ns) == if Wanted(log[k], ns) then [log[k]] else []
  {
    assert Newest(log, [k], 0, ns) == [];
  }

  lemma SplitAt(keys: set<string>, k: string, a: seq<string>, b: seq<string>)
    requires k !in keys && Ascending(a) && Ascending(b)
    requires forall x :: x in a <==> x in keys && Less(x, k)
    requires forall x :: x in b <==> x in keys && Less(k, x)
    ensures Ascending(a + b) && forall x :: x in a + b <==> x in keys
    ensures Ascending(a + [k] + b) && forall x :: x in a + [k] + b <==> x in keys + {k}
    ensures k !in a && k !in b
  {
    LessIrreflexive(k);
    forall x | x in keys ensures Less(x, k) || Less(k, x) { LessTotal(x, k); }
    forall x, y | x in a && y in b ensures Less(x, y) { LessTransitive(x, k, y); }
    AscendingConcat(a, b);
    AscendingConcat(a, [k]);
    AscendingConcat(a + [k], b);
  }

  lemma InsertingLosesNothing(front: seq<AuditLogEntry>, mid: seq<AuditLogEntry>, back: seq<AuditLogEntry>, offset: nat)
    ensures StillToCome(front + back, front + mid + back, offset)
  {
    var before, after := front + back, front + mid + back;
    if offset <= |before| {
      forall e | e in before[offset..] ensures e in after[offset..] {
        var i :| offset <= i < |before| && before[i] == e;
        var j := if i < |front| then i else i + |mid|;
        assert after[j] == e && after[offset..][j - offset] == e;
      }
    }
  }

  /** Entries that arrive between two pages, in whatever key order, may make going on at the
      old offset repeat what was already shown, but every entry not shown yet is still to come. */
  lemma {:induction false} ContinuedPagingNeverSkips(log: Log, arrived: Log, ns: string, offset: nat)
    requires log.Keys !! arrived.Keys
    ensures StillToCome(Filtered(log, ns), Filtered(log + arrived, ns), offset)
    decreases arrived.Keys
  {
    if arrived == map[] {
      assert log + arrived == log;
    } else {
      var k, some := TakeOne(log, arrived);
      ContinuedPagingNeverSkips(log, some, ns, offset);
      OneMoreNeverSkips(log + some, k, arrived[k], ns, offset);
      StillToComeTransitive(Filtered(log, ns), Filtered(log + some, ns), Filtered(log + arrived, ns), offset);
    }
  }

  lemma TakeOne(log: Log, arrived: Log) returns (k: string, some: Log)
    requires log.Keys !! arrived.Keys && arrived != map[]
    ensures k in arrived && k !in log + some && some.Keys < arrived.Keys && log.Keys !! some.Keys
    ensures (log + some)[k := arrived[k]] == log + arrived
  {
    k :| k in arrived;
    some := arrived - {k};
    assert some.Keys == arrived.Keys - {k};
  }

  lemma OneMoreNeverSkips(log: Log, k: string, e: AuditLogEntry, ns: string, offset: nat)
    requires k !in log
    ensures StillToCome(Filtered(log, ns), Filtered(log[k := e], ns), offset)
  {
    var front, back := EntryGoesBetween(log, k, e, ns);
    InsertingLosesNothing(front, if Wanted(e, ns) then [e] else [], back, offset);
  }

  lemma StillToComeTransitive(a: seq<AuditLogEntry>, b: seq<AuditLogEntry>, c: seq<AuditLogEntry>, offset: nat)
    requires StillToCome(a, b, offset) && StillToCome(b, c, offset)
    ensures StillToCome(a, c, offset)
  {
  }

  /** The backward walk has passed `done`, skipped as much of it as the offset asks for and
      kept the rest. */
  predicate Walked(done: seq<AuditLogEntry>, offset: nat, skipped: int, logs: seq<AuditLogEntry>) {
    skipped == Min(|done|, offset) && logs == done[skipped..]
  }

  lemma WalkStep(done: seq<AuditLogEntry>, offset: nat, skipped: int, logs: seq<AuditLogEntry>, e: AuditLogEntry)
    requires Walked(done, offset, skipped, logs)
    ensures skipped < offset ==> Walked(done + [e], offset, skipped + 1, logs)
    ensures skipped >= offset ==> Walked(done + [e], offset, skipped, logs + [e])
  {
  }

  lemma WalkEnds(done: seq<AuditLogEntry>, rest: seq<AuditLogEntry>, offset: nat, skipped: int,
                 logs: seq<AuditLogEntry>, limit: nat)
    requires Walked(done, offset, skipped, logs) && (limit > 0 ==> |logs| <= limit)
    requires rest == [] || (limit > 0 && |logs| == limit)
    ensures logs == Page(done + rest, limit, offset)
  {
  }

  lemma WalkPasses(log: Log, keys: seq<string>, i: nat, ns: string, done: seq<AuditLogEntry>)
    requires i < |keys| && Matches(log, keys[i], ns)
    ensures done + Newest(log, keys, i + 1, ns) == (done + [log[keys[i]]]) + Newest(log, keys, i, ns)
  {
  }

  // ---- The bucket ----

  class AuditLog {
    var entries: Log

    ghost predicate Valid()
      reads this
    {
      Keyed(entries)
    }

    constructor ()
      ensures Valid() && entries == map[]
    {
      entries := map[];
    }

    method LogAudit(entry: AuditLogEntry)
      requires Valid()
      modifies this
      ensures Valid() && entries == old(entries)[LogKey(entry) := entry]
    {
      ghost var before := entries;
      entries := entries[LogKey(entry) := entry];
      forall k ensures KeyedAt(entries, k) { assert KeyedAt(before, k); }
    }

    /** Walks the bucket backwards; a limit of 0 or less means no limit. */
    method GetAuditLogs(ns: string, limit: int, offset: int) returns (logs: seq<AuditLogEntry>)
      requires Valid()
      ensures logs == Page(Filtered(entries, ns), if limit > 0 then limit else 0, if offset > 0 then offset else 0)
      ensures forall e | e in logs :: e in entries.Values && (ns == "" || e.namespace == ns)
    {
      PageIsOfNamespace(entries, ns, if limit > 0 then limit else 0, if offset > 0 then offset else 0);
      var keys := SortedKeys(entries.Keys);
      ghost var done: seq<AuditLogEntry> := [];
      ghost var first := if offset > 0 then offset else 0;
      var skipped, count, i := 0, 0, |keys|;
      logs := [];
      while i > 0
        invariant 0 <= i <= |keys| && count == |logs|
        invariant Filtered(entries, ns) == done + Newest(entries, keys, i, ns)
        invariant Walked(done, first, skipped, logs)
        invariant limit > 0 ==> count <= limit
      {
        i := i - 1;
        assert keys[i] in keys;
        var entry := entries[keys[i]];
        if !Wanted(entry, ns) {
          continue;
        }
        WalkStep(done, first, skipped, logs, entry);
        WalkPasses(entries, keys, i, ns, done);
        if skipped < offset {
          skipped, done := skipped + 1, done + [entry];
          continue;
        }
        if limit > 0 && count >= limit {
          WalkEnds(done, Newest(entries, keys, i + 1, ns), first, skipped, logs, limit);
          return;
        }
        logs, count, done := logs + [entry], count + 1, done + [entry];
      }
      WalkEnds(done, [], first, skipped, logs, if limit > 0 then limit else 0);
    }

    method CountAuditLogs(ns: string) returns (total: int)
      requires Valid()
      ensures total == |Filtered(entries, ns)|
      ensures total == |set k | k in entries && (ns == "" || entries[k].namespace == ns)|
    {
      FilteredCounts(entries, ns);
      var keys := SortedKeys(entries.Keys);
      total := 0;
      var i := 0;
      while i < |keys|
        invariant 0 <= i <= |keys| && total == |Newest(entries, keys, i, ns)|
      {
        assert keys[i] in keys;
        if Wanted(entries[keys[i]], ns) {
          total := total + 1;
        }
        i := i + 1;
      }
    }

    /** handleGetAuditLogs: `limit` and `offset` are the parsed query parameters, if any. */
    method HandleGetAuditLogs(ns: string, limitParam: Option<int>, offsetParam: Option<int>)
      returns (logs: seq<AuditLogEntry>, limit: nat, offset: nat, hasMore: bool)
      requires Valid()
      ensures limit == match limitParam {
        case Some(l) => if l > 100 then 100 else if l > 0 then l else 25
        case None => 25
      }
      ensures offset == match offsetParam { case Some(o) => if o >= 0 then o else 0 case None => 0 }
      ensures logs == Page(Filtered(entries, ns), limit, offset)
      ensures forall e | e in logs :: e in entries.Values && (ns == "" || e.namespace == ns)
      ensures hasMore <==> Page(Filtered(entries, ns), limit, offset + limit) != []
      ensures hasMore <==> offset + |logs| < |set k | k in entries && (ns == "" || entries[k].namespace == ns)|
    {
      limit := 25;
      if limitParam.Some? && limitParam.value > 0 {
        limit := limitParam.value;
      }
      if limit > 100 {
        limit := 100;
      }
      offset := 0;
      if offsetParam.Some? && offsetParam.value >= 0 {
        offset := offsetParam.value;
      }
      var total := CountAuditLogs(ns);
      logs := GetAuditLogs(ns, limit, offset);
      HasMoreExact(Filtered(entries, ns), limit, offset);
      hasMore := offset + |logs| < total;
    }
  }
}
