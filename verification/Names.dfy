/** Names, the byte keys built from them, and the decimal and binary encodings inside those keys. */
module Names {
  import opened ByteOrder

  // ---- Alphabets and validators (internal/models/models.go) ----

  predicate AlphaNumeric(c: char) {
    'a' <= c <= 'z' || 'A' <= c <= 'Z' || '0' <= c <= '9'
  }

  predicate NamespaceChar(c: char) { AlphaNumeric(c) || c == '_' || c == '-' }

  predicate KeyChar(c: char) { NamespaceChar(c) || c == '.' }

  predicate ValidSegment(seg: string) {
    seg != "" && forall i | 0 <= i < |seg| :: NamespaceChar(seg[i])
  }

  /** ValidateNamespace: at most 256 bytes, one to three non-empty segments. */
  predicate ValidNamespace(ns: string) {
    && ns != "" && |ns| <= 256
    && var segs := Split(ns);
       |segs| <= 3 && forall i | 0 <= i < |segs| :: ValidSegment(segs[i])
  }

  /** ValidateKey. */
  predicate ValidKey(key: string) {
    && key != "" && |key| <= 256
    && forall i | 0 <= i < |key| :: KeyChar(key[i])
  }

  // ---- Splitting at '/' (strings.Split, strings.Join) ----

  function Split(s: string): (segs: seq<string>)
    ensures |segs| >= 1
  {
    if s == "" then [""]
    else if s[0] == '/' then [""] + Split(s[1..])
    else var r := Split(s[1..]); [[s[0]] + r[0]] + r[1..]
  }

  function Join(segs: seq<string>): string
    requires |segs| >= 1
  {
    if |segs| == 1 then segs[0] else segs[0] + "/" + Join(segs[1..])
  }

  lemma {:induction false} JoinSplit(s: string)
    ensures Join(Split(s)) == s
  {
    if s != "" {
      JoinSplit(s[1..]);
      var r := Split(s[1..]);
      assert s == [s[0]] + s[1..];
      if s[0] == '/' {
        assert Split(s)[1..] == r;
      } else if |r| > 1 {
        assert Split(s)[1..] == r[1..];
        assert Join(r) == r[0] + "/" + Join(r[1..]);
        assert [s[0]] + (r[0] + "/" + Join(r[1..])) == ([s[0]] + r[0]) + "/" + Join(r[1..]);
      }
    }
  }

  /** Splitting a path splits its two halves; a half without '/' is one segment. */
  lemma {:induction false} SplitAtSlash(a: string, b: string)
    ensures Split(a + "/" + b) == Split(a) + Split(b)
    decreases |a|
  {
    var s := a + "/" + b;
    if a == "" {
      assert s[1..] == b;
    } else {
      assert s[1..] == a[1..] + "/" + b;
      SplitAtSlash(a[1..], b);
    }
  }

  lemma {:induction false} SplitOne(s: string)
    ensures '/' !in s <==> Split(s) == [s]
    ensures '/' in s ==> |Split(s)| >= 2
  {
    if s != "" {
      SplitOne(s[1..]);
      assert s == [s[0]] + s[1..];
      assert '/' in s <==> s[0] == '/' || '/' in s[1..];
      if s[0] != '/' && '/' in s[1..] {
        assert |Split(s)| == |Split(s[1..])|;
      }
    }
  }

  lemma {:induction false} JoinConcat(a: seq<string>, b: seq<string>)
    requires |a| >= 1 && |b| >= 1
    ensures Join(a + b) == Join(a) + "/" + Join(b)
  {
    assert (a + b)[1..] == a[1..] + b;
    if |a| > 1 {
      JoinConcat(a[1..], b);
      assert a[0] + "/" + (Join(a[1..]) + "/" + Join(b)) == (a[0] + "/" + Join(a[1..])) + "/" + Join(b);
    }
  }

  /** `p/` is a string prefix of `s` exactly when the segments of `p` are a proper prefix
      of the segments of `s`. */
  lemma SlashPrefixIsAncestor(p: string, s: string)
    ensures p + "/" <= s <==> Split(p) < Split(s)
  {
    if p + "/" <= s {
      var rest := s[|p| + 1..];
      assert s == p + "/" + rest;
      SplitAtSlash(p, rest);
    }
    if Split(p) < Split(s) {
      var rest := Split(s)[|Split(p)|..];
      assert Split(s) == Split(p) + rest;
      JoinConcat(Split(p), rest);
      JoinSplit(p);
      JoinSplit(s);
      assert s == p + "/" + Join(rest);
    }
  }

  predicate SegmentAlphabet(segs: seq<string>) {
    forall i, j | 0 <= i < |segs| && 0 <= j < |segs[i]| :: NamespaceChar(segs[i][j])
  }

  /** A string whose segments use the segment alphabet has no other character than '/'. */
  lemma {:induction false} SegmentChars(s: string)
    requires SegmentAlphabet(Split(s))
    ensures forall j | 0 <= j < |s| :: s[j] == '/' || NamespaceChar(s[j])
  {
    if s != "" {
      var segs, r := Split(s), Split(s[1..]);
      forall i, j | 0 <= i < |r| && 0 <= j < |r[i]| ensures NamespaceChar(r[i][j]) {
        if s[0] == '/' {
          assert segs[i + 1] == r[i];
        } else if i == 0 {
          assert segs[0][j + 1] == r[0][j];
        } else {
          assert segs[i] == r[i];
        }
      }
      SegmentChars(s[1..]);
      assert s[0] == '/' || segs[0][0] == s[0];
      assert forall j | 0 < j < |s| :: s[j] == s[1..][j - 1];
    }
  }

  // ---- Bucket keys (makeKVKey, makeVersionKey) ----

  function KVKey(ns: string, key: string): string { ns + "/" + key }

  function VersionKey(ns: string, key: string, version: int): string {
    KVKey(ns, key) + "#" + Pad20(version)
  }

  function CounterKey(ns: string, key: string): string { "version_" + KVKey(ns, key) }

  /** A separator that does not occur in `b` last occurs right before it. */
  lemma OnlyAt(a: string, c: char, b: string)
    requires c !in b
    ensures var s := a + [c] + b; s[|a|] == c && forall j | |a| < j < |s| :: s[j] != c
  {
    var s := a + [c] + b;
    forall j | |a| < j < |s| ensures s[j] != c {
      assert s[j] == b[j - |a| - 1];
    }
  }

  /** makeKVKey is injective on keys without '/', whatever the namespaces. */
  lemma KVKeyInjective(ns: string, key: string, ns': string, key': string)
    requires '/' !in key && '/' !in key'
    requires KVKey(ns, key) == KVKey(ns', key')
    ensures ns == ns' && key == key'
  {
    var s, s' := KVKey(ns, key), KVKey(ns', key');
    OnlyAt(ns, '/', key);
    OnlyAt(ns', '/', key');
    assert |ns| == |ns'|;
    assert ns == s[..|ns|] && ns' == s'[..|ns'|];
    assert key == s[|ns| + 1..] && key' == s'[|ns'| + 1..];
  }

  lemma CounterKeyInjective(ns: string, key: string, ns': string, key': string)
    ensures CounterKey(ns, key) == CounterKey(ns', key') <==> KVKey(ns, key) == KVKey(ns', key')
    ensures "version_" <= CounterKey(ns, key) && CounterKey(ns, key)[8..] == KVKey(ns, key)
  {
    assert CounterKey(ns, key)[8..] == KVKey(ns, key);
    assert CounterKey(ns', key')[8..] == KVKey(ns', key');
  }

  /** The listing prefix `p/` covers exactly the entries of `p` and of its descendants. */
  lemma KVKeyUnder(p: string, ns: string, key: string)
    requires '/' !in key
    ensures p + "/" <= KVKey(ns, key) <==> p == ns || p + "/" <= ns
  {
    var s := KVKey(ns, key);
    OnlyAt(ns, '/', key);
    if p + "/" <= s {
      assert (p + "/")[|p|] == s[|p|];
      assert |p| <= |ns|;
      assert if |p| == |ns| then p == s[..|p|] == ns else s[..|p| + 1] == ns[..|p| + 1];
    }
  }

  lemma ValidNameFacts(ns: string, key: string)
    requires ValidNamespace(ns) && ValidKey(key)
    ensures '/' !in key && '#' !in key && '#' !in ns && '#' !in KVKey(ns, key)
  {
    SegmentChars(ns);
  }

  /** The history prefix `ns/key#` matches the records of that key and of no other, for any
      queried name whose key part has no '/'. */
  lemma HistoryPrefixExact(ns: string, key: string, ns': string, key': string, version: int)
    requires '/' !in key && '/' !in key' && '#' !in KVKey(ns', key')
    ensures KVKey(ns, key) + "#" <= VersionKey(ns', key', version) <==> ns == ns' && key == key'
  {
    var p, s := KVKey(ns, key) + "#", VersionKey(ns', key', version);
    var n, n' := |KVKey(ns, key)|, |KVKey(ns', key')|;
    Pad20Chars(version);
    OnlyAt(KVKey(ns', key'), '#', Pad20(version));
    assert forall j | 0 <= j < n' :: s[j] == KVKey(ns', key')[j];
    assert ns == ns' && key == key' ==> s == p + Pad20(version);
    if p <= s {
      assert s[n] == p[n] == '#';
      assert n == n';
      assert KVKey(ns, key) == p[..n] == s[..n] == KVKey(ns', key');
      KVKeyInjective(ns, key, ns', key');
    }
  }

  lemma VersionKeyInjective(ns: string, key: string, v: int, ns': string, key': string, v': int)
    requires '/' !in key && '/' !in key' && '#' !in KVKey(ns', key')
    requires Int64(v) && Int64(v')
    requires VersionKey(ns, key, v) == VersionKey(ns', key', v')
    ensures ns == ns' && key == key' && v == v'
  {
    var p := KVKey(ns, key) + "#";
    assert VersionKey(ns, key, v) == p + Pad20(v);
    HistoryPrefixExact(ns, key, ns', key', v');
    assert Pad20(v) == VersionKey(ns, key, v)[|p|..] == Pad20(v');
    Pad20Injective(v, v');
  }

  // ---- %020d ----

  const MAX_INT64: int := 0x7fff_ffff_ffff_ffff
  const MIN_INT64: int := -0x8000_0000_0000_0000

  predicate Int64(v: int) { MIN_INT64 <= v <= MAX_INT64 }

  function Pow(base: nat, k: nat): (p: nat)
    requires base > 0
    ensures p > 0
  {
    if k == 0 then 1 else base * Pow(base, k - 1)
  }

  /** The decimal digit of `n` at place `k`. */
  function DecimalAt(n: nat, k: nat): (d: nat)
    ensures d < 10
    decreases k
  {
    if k == 0 then n % 10 else DecimalAt(n / 10, k - 1)
  }

  /** The byte of `u` at place `k`. */
  function ByteAt(u: nat, k: nat): (b: Byte)
    decreases k
  {
    if k == 0 then u % 256 else ByteAt(u / 256, k - 1)
  }

  function DigitChar(d: nat): (c: char)
    requires d < 10
    ensures '0' <= c <= '9'
  {
    ('0' as int + d) as char
  }

  /** The `w` low decimal digits of `n`, most significant first. */
  function Digits(n: nat, w: nat): (s: string)
    ensures |s| == w
  {
    seq(w, i requires 0 <= i < w => DigitChar(DecimalAt(n, w - 1 - i)))
  }

  lemma DigitsStep(n: nat, w: nat)
    requires w > 0
    ensures Digits(n, w) == Digits(n / 10, w - 1) + [DigitChar(n % 10)]
  {
    forall i | 0 <= i < w ensures Digits(n, w)[i] == (Digits(n / 10, w - 1) + [DigitChar(n % 10)])[i] {
      assert Digits(n, w)[i] == DigitChar(DecimalAt(n, w - 1 - i));
    }
  }

  /** Zero padding makes byte order numeric order. */
  lemma {:induction false} DigitsOrder(n: nat, m: nat, w: nat)
    requires n < m < Pow(10, w)
    ensures Less(Digits(n, w), Digits(m, w))
  {
    if w > 0 {
      DigitsStep(n, w);
      DigitsStep(m, w);
      var a, b := Digits(n / 10, w - 1), Digits(m / 10, w - 1);
      if n / 10 < m / 10 {
        DigitsOrder(n / 10, m / 10, w - 1);
        LessExtends(a, b, [DigitChar(n % 10)], [DigitChar(m % 10)]);
      } else {
        assert n % 10 < m % 10;
        LessUnderPrefix(a, [DigitChar(n % 10)], [DigitChar(m % 10)]);
      }
    }
  }

  lemma DigitsAreDigits(n: nat, w: nat)
    ensures forall i | 0 <= i < w :: '0' <= Digits(n, w)[i] <= '9'
  {
    forall i | 0 <= i < w ensures '0' <= Digits(n, w)[i] <= '9' {
      assert Digits(n, w)[i] == DigitChar(DecimalAt(n, w - 1 - i));
    }
  }

  /** fmt.Sprintf("%020d", v) of an int64: the sign takes one of the twenty places. */
  function Pad20(v: int): (s: string)
    ensures |s| == 20
  {
    if v >= 0 then Digits(v, 20) else "-" + Digits(-v, 19)
  }

  lemma Pad20Chars(v: int)
    ensures forall i | 0 <= i < 20 :: Pad20(v)[i] != '#' && Pad20(v)[i] != '/'
  {
    if v >= 0 { DigitsAreDigits(v, 20); } else { DigitsAreDigits(-v, 19); }
  }

  lemma Int64Width()
    ensures MAX_INT64 < -MIN_INT64 < Pow(10, 19) < Pow(10, 20)
  {
    assert Pow(10, 4) == 10_000;
    assert Pow(10, 8) == 10_000 * Pow(10, 4) == 100_000_000;
    assert Pow(10, 12) == 10_000 * Pow(10, 8);
    assert Pow(10, 16) == 10_000 * Pow(10, 12);
    assert Pow(10, 19) == 1000 * Pow(10, 16);
  }

  /** Byte order of the padded versions is numeric order for every non-negative int64. */
  lemma Pad20Order(v: int, v': int)
    requires 0 <= v <= MAX_INT64 && 0 <= v' <= MAX_INT64
    ensures Less(Pad20(v), Pad20(v')) <==> v < v'
  {
    Int64Width();
    if v < v' {
      DigitsOrder(v, v', 20);
    } else if v == v' {
      LessIrreflexive(Pad20(v));
    } else {
      DigitsOrder(v', v, 20);
      if Less(Pad20(v), Pad20(v')) {
        LessTransitive(Pad20(v), Pad20(v'), Pad20(v));
        LessIrreflexive(Pad20(v));
      }
    }
  }

  lemma DigitsInjective(n: nat, m: nat, w: nat)
    requires n < Pow(10, w) && m < Pow(10, w) && Digits(n, w) == Digits(m, w)
    ensures n == m
  {
    LessIrreflexive(Digits(n, w));
    if n < m { DigitsOrder(n, m, w); }
    if m < n { DigitsOrder(m, n, w); }
  }

  lemma SignVisible(v: int)
    ensures Pad20(v)[0] == '-' <==> v < 0
  {
    if v >= 0 { DigitsAreDigits(v, 20); }
  }

  lemma Pad20Injective(v: int, v': int)
    requires Int64(v) && Int64(v') && Pad20(v) == Pad20(v')
    ensures v == v'
  {
    Int64Width();
    if v >= 0 && v' >= 0 {
      DigitsInjective(v, v', 20);
    } else if v < 0 && v' < 0 {
      assert Digits(-v, 19) == Pad20(v)[1..] == Pad20(v')[1..] == Digits(-v', 19);
      DigitsInjective(-v, -v', 19);
    } else {
      SignVisible(v);
      SignVisible(v');
    }
  }

  // ---- Version counters: int64 in eight big-endian bytes ----

  type Byte = b: nat | b < 256

  /** binary.BigEndian.PutUint64 for w == 8. */
  function BigEndian(u: nat, w: nat): (bytes: seq<Byte>)
    ensures |bytes| == w
  {
    seq(w, i requires 0 <= i < w => ByteAt(u, w - 1 - i))
  }

  /** binary.BigEndian.Uint64. */
  function FromBigEndian(bytes: seq<Byte>): nat {
    if bytes == [] then 0
    else 256 * FromBigEndian(bytes[..|bytes| - 1]) + bytes[|bytes| - 1]
  }

  lemma {:induction false} BigEndianRoundTrip(u: nat, w: nat)
    requires u < Pow(256, w)
    ensures FromBigEndian(BigEndian(u, w)) == u
  {
    if w > 0 {
      BigEndianRoundTrip(u / 256, w - 1);
      var bytes := BigEndian(u, w);
      forall i | 0 <= i < w - 1 ensures bytes[i] == BigEndian(u / 256, w - 1)[i] {
        assert bytes[i] == ByteAt(u, w - 1 - i) == ByteAt(u / 256, w - 2 - i);
      }
      assert bytes[..w - 1] == BigEndian(u / 256, w - 1);
      assert bytes[w - 1] == ByteAt(u, 0);
    }
  }

  /** The most significant byte comes first: the last byte is the remainder, the others encode the rest. */
  lemma BigEndianExact(u: nat, w: nat)
    requires w > 0
    ensures BigEndian(u, w) == BigEndian(u / 256, w - 1) + [u % 256]
  {
    forall i | 0 <= i < w ensures BigEndian(u, w)[i] == (BigEndian(u / 256, w - 1) + [u % 256])[i] {
      assert BigEndian(u, w)[i] == ByteAt(u, w - 1 - i);
    }
  }

  const TWO_64: int := 0x1_0000_0000_0000_0000

  function AsUint64(v: int): (u: nat)
    requires Int64(v)
  {
    if v < 0 then v + TWO_64 else v
  }

  function AsInt64(u: nat): (v: int)
    requires u < TWO_64
    ensures Int64(v)
  {
    if u <= MAX_INT64 then u else u - TWO_64
  }

  /** int64 addition of one wraps around. */
  function Succ64(v: int): (r: int)
    requires Int64(v)
    ensures Int64(r)
  {
    if v == MAX_INT64 then MIN_INT64 else v + 1
  }

  function EncodeCounter(v: int): seq<Byte>
    requires Int64(v)
  {
    BigEndian(AsUint64(v), 8)
  }

  function DecodeCounter(bytes: seq<Byte>): int {
    AsInt64(FromBigEndian(bytes) % TWO_64)
  }

  lemma CounterRoundTrip(v: int)
    requires Int64(v)
    ensures DecodeCounter(EncodeCounter(v)) == v
  {
    assert Pow(256, 4) == 0x1_0000_0000;
    assert Pow(256, 8) == 0x1_0000_0000 * Pow(256, 4) == TWO_64;
    BigEndianRoundTrip(AsUint64(v), 8);
  }

  // ---- The name rules and number formats, written out ----

  predicate NoSlashIn(segs: seq<string>) { forall i | 0 <= i < |segs| :: '/' !in segs[i] }

  lemma {:induction false} SplitJoin(segs: seq<string>)
    requires segs != [] && NoSlashIn(segs)
    ensures Split(Join(segs)) == segs
  {
    SplitOne(segs[0]);
    if |segs| > 1 {
      SplitJoin(segs[1..]);
      SplitAtSlash(segs[0], Join(segs[1..]));
      assert segs == [segs[0]] + segs[1..];
    }
  }

  /** One letter, digit, underscore or hyphen at least. */
  predicate Word(seg: string) {
    seg != "" && forall c | c in seg :: 'a' <= c <= 'z' || 'A' <= c <= 'Z' || '0' <= c <= '9' || c == '_' || c == '-'
  }

  predicate Words(segs: seq<string>) { 1 <= |segs| <= 3 && forall i | 0 <= i < |segs| :: Word(segs[i]) }

  lemma WordExact(seg: string)
    ensures ValidSegment(seg) <==> Word(seg)
  {
    if Word(seg) { assert forall i | 0 <= i < |seg| :: seg[i] in seg; }
  }

  /** Valid namespaces are exactly the strings of at most 256 bytes made of one to three words
      joined by slashes. */
  lemma ValidNamespaceExact(ns: string)
    ensures ValidNamespace(ns) <==> |ns| <= 256 && exists segs :: Words(segs) && ns == Join(segs)
  {
    if ValidNamespace(ns) {
      forall i | 0 <= i < |Split(ns)| ensures Word(Split(ns)[i]) { WordExact(Split(ns)[i]); }
      JoinSplit(ns);
      assert Words(Split(ns));
    }
    if segs :| |ns| <= 256 && Words(segs) && ns == Join(segs) { WordsAreValid(ns, segs); }
  }

  lemma WordsAreValid(ns: string, segs: seq<string>)
    requires |ns| <= 256 && Words(segs) && ns == Join(segs)
    ensures ValidNamespace(ns)
  {
    forall i | 0 <= i < |segs| ensures '/' !in segs[i] && ValidSegment(segs[i]) {
      assert Word(segs[i]);
      WordExact(segs[i]);
    }
    SplitJoin(segs);
    assert Word(segs[0]);
  }

  /** Valid keys are exactly the strings of 1 to 256 bytes of this alphabet. */
  lemma ValidKeyExact(key: string)
    ensures ValidKey(key) <==> (
      1 <= |key| <= 256 && forall c | c in key ::
        'a' <= c <= 'z' || 'A' <= c <= 'Z' || '0' <= c <= '9' || c == '.' || c == '_' || c == '-')
  {
    assert forall i | 0 <= i < |key| :: key[i] in key;
  }

  /** The number a string of decimal digits denotes. */
  function Denoted(s: string): int {
    if s == "" then 0 else 10 * Denoted(s[..|s| - 1]) + (s[|s| - 1] as int - '0' as int)
  }

  lemma {:induction false} DigitsDenote(n: nat, w: nat)
    requires n < Pow(10, w)
    ensures Denoted(Digits(n, w)) == n
  {
    if w > 0 {
      DigitsStep(n, w);
      DigitsDenote(n / 10, w - 1);
      assert Digits(n, w)[..w - 1] == Digits(n / 10, w - 1);
    }
  }

  /** %020d of a non-negative int64 is twenty characters that denote the number. */
  lemma Pad20Denotes(v: int)
    requires 0 <= v <= MAX_INT64
    ensures |Pad20(v)| == 20 && Denoted(Pad20(v)) == v
  {
    Int64Width();
    DigitsDenote(v, 20);
  }
}
