/** Byte strings in the order of a bbolt bucket, and the cursor that walks them.
    A `char` stands for one byte of a key. */
module ByteOrder {
  import opened Wrappers

  /** Strict lexicographic order (bytes.Compare(a, b) < 0). */
  predicate Less(a: string, b: string) {
    |b| > 0 && (|a| == 0 || a[0] < b[0] || (a[0] == b[0] && Less(a[1..], b[1..])))
  }

  lemma {:induction false} LessIrreflexive(a: string)
    ensures !Less(a, a)
  {
    if a != "" { LessIrreflexive(a[1..]); }
  }

  lemma {:induction false} LessTransitive(a: string, b: string, c: string)
    requires Less(a, b) && Less(b, c)
    ensures Less(a, c)
  {
    if a != "" && a[0] == b[0] == c[0] {
      LessTransitive(a[1..], b[1..], c[1..]);
    }
  }

  lemma {:induction false} LessTotal(a: string, b: string)
    ensures a == b || Less(a, b) || Less(b, a)
  {
    if a != "" && b != "" && a[0] == b[0] {
      LessTotal(a[1..], b[1..]);
      assert a == [a[0]] + a[1..] && b == [b[0]] + b[1..];
    }
  }

  /** The keys with prefix `p` are contiguous: none lies below `p`, and no key above a
      non-match that is itself not below `p` is a match. */
  lemma {:induction false} PrefixContiguous(p: string, m: string, j: string)
    requires p <= j
    ensures !Less(j, p)
    ensures !Less(m, p) && Less(m, j) ==> p <= m
  {
    if p != "" {
      if m != "" && m[0] == p[0] {
        PrefixContiguous(p[1..], m[1..], j[1..]);
        if p[1..] <= m[1..] {
          assert p == [p[0]] + p[1..] && m == [m[0]] + m[1..];
        }
      } else {
        PrefixContiguous(p[1..], p[1..], j[1..]);
      }
    }
  }

  /** A common prefix does not affect the order. */
  lemma {:induction false} LessUnderPrefix(p: string, a: string, b: string)
    ensures Less(p + a, p + b) <==> Less(a, b)
  {
    if p == "" {
      assert p + a == a && p + b == b;
    } else {
      assert (p + a)[1..] == p[1..] + a && (p + b)[1..] == p[1..] + b;
      LessUnderPrefix(p[1..], a, b);
    }
  }

  /** The order of two strings of equal length decides the order of all their extensions. */
  lemma {:induction false} LessExtends(a: string, b: string, x: string, y: string)
    requires |a| == |b| && Less(a, b)
    ensures Less(a + x, b + y)
  {
    if a[0] == b[0] {
      assert (a + x)[1..] == a[1..] + x && (b + y)[1..] == b[1..] + y;
      LessExtends(a[1..], b[1..], x, y);
    }
  }

  // ---- Least key and sorted keys ----

  predicate IsLeast(s: set<string>, m: string) {
    m in s && forall k | k in s && k != m :: Less(m, k)
  }

  lemma {:induction false} LeastExists(s: set<string>) returns (m: string)
    requires s != {}
    ensures IsLeast(s, m)
  {
    var x :| x in s;
    m := x;
    if s != {x} {
      var r := s - {x};
      assert s == r + {x};
      var y := LeastExists(r);
      LessTotal(x, y);
      if Less(y, x) {
        m := y;
      } else {
        forall k | k in r ensures Less(x, k) {
          if k != y { LessTransitive(x, y, k); }
        }
      }
    }
  }

  lemma LeastUnique(s: set<string>, m: string, n: string)
    requires IsLeast(s, m) && IsLeast(s, n)
    ensures m == n
  {
    if m != n {
      LessTransitive(m, n, m);
      LessIrreflexive(m);
    }
  }

  function Least(s: set<string>): (m: string)
    requires s != {}
    ensures IsLeast(s, m)
  {
    assert exists m :: IsLeast(s, m) by { var w := LeastExists(s); }
    assert forall m, n | IsLeast(s, m) && IsLeast(s, n) :: m == n by {
      forall m, n | IsLeast(s, m) && IsLeast(s, n) ensures m == n { LeastUnique(s, m, n); }
    }
    var m :| m in s && IsLeast(s, m);
    m
  }

  /** The keys of a bucket in cursor order. */
  function SortedKeys(s: set<string>): (keys: seq<string>)
    ensures |keys| == |s|
    ensures forall k :: k in keys <==> k in s
  {
    if s == {} then [] else
    var m := Least(s);
    assert s == (s - {m}) + {m};
    [m] + SortedKeys(s - {m})
  }

  predicate Ascending(keys: seq<string>) {
    forall i, j | 0 <= i < j < |keys| :: Less(keys[i], keys[j])
  }

  lemma {:induction false} SortedKeysAscending(s: set<string>)
    ensures Ascending(SortedKeys(s))
  {
    if s != {} {
      var m := Least(s);
      SortedKeysAscending(s - {m});
      var rest := SortedKeys(s - {m});
      forall j | 0 <= j < |rest| ensures Less(m, rest[j]) {
        assert rest[j] in rest;
      }
    }
  }

  /** An ascending sequence of keys is determined by the set of its elements. */
  lemma {:induction false} AscendingUnique(a: seq<string>, b: seq<string>)
    requires Ascending(a) && Ascending(b)
    requires forall k :: k in a <==> k in b
    ensures a == b
  {
    assert forall i | 0 <= i < |a| :: a[i] in b;
    assert forall i | 0 <= i < |b| :: b[i] in a;
    if a != [] && b != [] {
      if a[0] != b[0] {
        LessTransitive(a[0], b[0], a[0]);
        LessIrreflexive(a[0]);
      }
      forall k ensures k in a[1..] <==> k in b[1..] {
        LessIrreflexive(a[0]);
        assert k in a[1..] ==> k in a && k != a[0];
        assert k in b[1..] ==> k in b && k != b[0];
      }
      AscendingUnique(a[1..], b[1..]);
    }
  }

  // ---- Cursor ----

  function NotBelow(keys: set<string>, p: string): set<string> {
    set k | k in keys && !Less(k, p)
  }

  function Above(keys: set<string>, p: string): set<string> {
    set k | k in keys && Less(p, k)
  }

  /** Cursor.Seek: the least key not below `p`. */
  function Seek(keys: set<string>, p: string): (c: Option<string>) {
    if NotBelow(keys, p) == {} then None else Some(Least(NotBelow(keys, p)))
  }

  /** Cursor.Next: the least stored key strictly above the last one returned. */
  function Next(keys: set<string>, last: string): (c: Option<string>) {
    if Above(keys, last) == {} then None else Some(Least(Above(keys, last)))
  }

  /** The loop guard of every prefix scan: the cursor stands on a key with the prefix. */
  predicate AtMatch(c: Option<string>, p: string) {
    c.Some? && p <= c.value
  }

  /** Keys with prefix `p` that a cursor standing at `c` has not passed yet. */
  ghost function Remaining(keys: set<string>, p: string, c: Option<string>): set<string> {
    if c.None? then {} else set k | k in keys && p <= k && !Less(k, c.value)
  }

  ghost function WithPrefix(keys: set<string>, p: string): set<string> {
    set k | k in keys && p <= k
  }

  lemma SeekFindsAll(keys: set<string>, p: string)
    ensures Remaining(keys, p, Seek(keys, p)) == WithPrefix(keys, p)
    ensures AtMatch(Seek(keys, p), p) ==> Seek(keys, p).value in keys
    ensures !AtMatch(Seek(keys, p), p) ==> WithPrefix(keys, p) == {}
  {
    var c := Seek(keys, p);
    forall k | k in keys && p <= k ensures c.Some? && !Less(k, c.value) && p <= c.value {
      PrefixContiguous(p, p, k);
      assert k in NotBelow(keys, p);
      if k == c.value { LessIrreflexive(k); } else {
        PrefixContiguous(p, c.value, k);
        if Less(k, c.value) { LessTransitive(k, c.value, k); LessIrreflexive(k); }
      }
    }
  }

  /** Stepping from a match `k` leaves exactly the matches above it (whether or not `k`
      itself has just been deleted). */
  lemma NextFindsRest(keys: set<string>, p: string, k: string)
    requires p <= k
    ensures Remaining(keys, p, Next(keys, k)) == set j | j in keys && p <= j && Less(k, j)
    ensures AtMatch(Next(keys, k), p) ==> Next(keys, k).value in keys
    ensures !AtMatch(Next(keys, k), p) ==> Remaining(keys, p, Next(keys, k)) == {}
  {
    var c := Next(keys, k);
    PrefixContiguous(p, p, k);
    if c.Some? {
      assert c.value in Above(keys, k);
      forall j | j in keys && p <= j && !Less(j, c.value) ensures Less(k, j) {
        LessTotal(j, c.value);
        if j != c.value { LessTransitive(k, c.value, j); }
      }
    }
    forall j | j in keys && p <= j && Less(k, j) ensures c.Some? && !Less(j, c.value) && p <= c.value {
      assert j in Above(keys, k);
      if j == c.value { LessIrreflexive(j); } else {
        if Less(j, c.value) { LessTransitive(j, c.value, j); LessIrreflexive(j); }
        if Less(c.value, p) {
          LessTransitive(k, c.value, p);
        }
        PrefixContiguous(p, c.value, j);
      }
    }
  }

  /** A match under the cursor is the least of the remaining keys. */
  lemma RemainingSplits(keys: set<string>, p: string, k: string)
    requires p <= k && k in keys
    ensures IsLeast(Remaining(keys, p, Some(k)), k)
    ensures Remaining(keys, p, Some(k)) - {k} == set j | j in keys && p <= j && Less(k, j)
  {
    LessIrreflexive(k);
    forall j | j in keys && p <= j && j != k ensures Less(k, j) <==> !Less(j, k) {
      LessTotal(j, k);
      if Less(k, j) && Less(j, k) { LessTransitive(k, j, k); }
    }
  }

  /** Stepping past `k`, which may just have been deleted, leaves the other remaining keys. */
  lemma StepLeavesRest(keys: set<string>, keys': set<string>, p: string, k: string)
    requires p <= k && k in keys && keys - {k} <= keys' <= keys
    ensures var c := Next(keys', k);
      && Remaining(keys', p, c) == Remaining(keys, p, Some(k)) - {k}
      && Remaining(keys', p, c) < Remaining(keys, p, Some(k))
      && (AtMatch(c, p) ==> c.value in keys')
      && (!AtMatch(c, p) ==> Remaining(keys', p, c) == {})
  {
    RemainingSplits(keys, p, k);
    NextFindsRest(keys', p, k);
    LessIrreflexive(k);
    assert k in Remaining(keys, p, Some(k));
  }

  /** `order` is the keys a prefix scan visits, in the order it visits them. */
  ghost predicate IsScanOrder(order: seq<string>, keys: set<string>, p: string) {
    && Ascending(order)
    && (forall k :: k in order <==> k in keys && p <= k)
  }

  lemma ScanOrder(keys: set<string>, p: string) returns (order: seq<string>)
    ensures IsScanOrder(order, keys, p)
  {
    order := SortedKeys(WithPrefix(keys, p));
    SortedKeysAscending(WithPrefix(keys, p));
  }

  lemma FirstIsLeast(order: seq<string>)
    requires Ascending(order) && order != []
    ensures forall k | k in order && k != order[0] :: Less(order[0], k)
  {
  }

  /** Seek lands on the first key of the scan, or off the range if there is none. */
  lemma SeekIsFirst(keys: set<string>, p: string, order: seq<string>)
    requires IsScanOrder(order, keys, p)
    ensures AtMatch(Seek(keys, p), p) <==> order != []
    ensures order != [] ==> Seek(keys, p).value == order[0]
  {
    var c := Seek(keys, p);
    SeekFindsAll(keys, p);
    assert AtMatch(c, p) ==> c.value in order;
    if order != [] {
      assert order[0] in WithPrefix(keys, p);
      RemainingSplits(keys, p, c.value);
      FirstIsLeast(order);
      LeastUnique(WithPrefix(keys, p), order[0], c.value);
    }
  }

  /** Next moves from each key of the scan to the following one, and off the range after the last. */
  lemma NextIsSuccessor(keys: set<string>, p: string, order: seq<string>, i: nat)
    requires IsScanOrder(order, keys, p) && i < |order|
    ensures var c := Next(keys, order[i]);
      && (AtMatch(c, p) <==> i + 1 < |order|)
      && (i + 1 < |order| ==> c.value == order[i + 1])
  {
    var k, c := order[i], Next(keys, order[i]);
    assert k in order;
    var above := set j | j in keys && p <= j && Less(k, j);
    NextFindsRest(keys, p, k);
    if i + 1 < |order| {
      assert order[i + 1] in order && order[i + 1] in above;
      assert above == Remaining(keys, p, c);
      RemainingSplits(keys, p, c.value);
      forall j | j in above && j != order[i + 1] ensures Less(order[i + 1], j) {
        assert j in order;
        var x :| 0 <= x < |order| && order[x] == j;
        if x < i { LessTransitive(k, j, k); LessIrreflexive(k); }
        if x == i { LessIrreflexive(k); }
      }
      LeastUnique(above, c.value, order[i + 1]);
    } else if AtMatch(c, p) {
      assert c.value in Remaining(keys, p, c) by { LessIrreflexive(c.value); }
      assert c.value in order;
      var x :| 0 <= x < |order| && order[x] == c.value;
      if x < i { LessTransitive(k, c.value, k); }
      LessIrreflexive(k);
    }
  }
}
