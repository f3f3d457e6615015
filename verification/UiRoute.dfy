/** The address bar of the web UI: building a path from a selection and reading it back. */
module UiRoute {
  import opened Wrappers
  import opened Names
  import opened Routes

  // ---- encodeURIComponent and decodeURIComponent ----

  /** decode returns its argument where decodeURIComponent throws, as the caller's catch does. */
  datatype UriCodec = UriCodec(encode: string -> string, decode: string -> string)

  /** Characters encodeURIComponent leaves alone (section 19.2.6 of ECMA-262). */
  predicate Unreserved(c: char) { AlphaNumeric(c) || c in "-_.!~*'()" }

  predicate Plain(s: string) { forall i | 0 <= i < |s| :: Unreserved(s[i]) }

  ghost predicate Standard(c: UriCodec) {
    && (forall s | Plain(s) :: c.encode(s) == s)
    && (forall s | '%' !in s :: c.decode(s) == s)
  }

  function Mapped(f: string -> string, segs: seq<string>): (r: seq<string>)
    ensures |r| == |segs| && forall i | 0 <= i < |r| :: r[i] == f(segs[i])
  {
    seq(|segs|, i requires 0 <= i < |segs| => f(segs[i]))
  }

  // ---- buildUrl and parseRoute ----

  const PANEL_PATH: map<string, string> :=
    map["secrets" := "/ui/kv", "tokens" := "/ui/tokens", "roles" := "/ui/roles",
        "audit" := "/ui/audit", "watch" := "/ui/watch"]

  /** An absent namespace or key is the empty string. */
  function BuildUrl(c: UriCodec, panel: string, ns: string, key: string): string {
    if panel != "secrets" then (if panel in PANEL_PATH then PANEL_PATH[panel] else "/ui/kv") else
    "/ui/kv" + (if ns != "" then "/" + Join(Mapped(c.encode, Split(ns))) else "")
             + (if key != "" then "/" + c.encode(key) else "")
  }

  datatype Parsed = Parsed(panel: string, kvRest: string)

  function PanelAt(path: string): string {
    if path == "/ui/tokens" then "tokens" else if path == "/ui/roles" then "roles"
    else if path == "/ui/audit" then "audit" else if path == "/ui/watch" then "watch" else "secrets"
  }

  function ParseRoute(pathname: string): Parsed {
    var cut := if pathname != "" && pathname[|pathname| - 1] == '/' then pathname[..|pathname| - 1] else pathname;
    var path := if cut == "" then "/" else cut;
    if path == "/" || path == "/ui" || path == "/ui/kv" then Parsed("secrets", "")
    else if "/ui/kv/" <= path then Parsed("secrets", path[7..])
    else Parsed(PanelAt(path), "")
  }

  // ---- location.pathname ----

  /** The first `i` segments of a path after dot segments are resolved as in the path state of
      the WHATWG URL parser. A dot written as %2e does not occur in the paths built here. */
  function Undotted(segs: seq<string>, i: nat): seq<string>
    requires i <= |segs|
  {
    if i == 0 then [] else
    var before, seg := Undotted(segs, i - 1), segs[i - 1];
    var end := if i == |segs| then [""] else [];
    if seg == ".." then (if before == [] then [] else before[..|before| - 1]) + end
    else if seg == "." then before + end
    else before + [seg]
  }

  /** What location.pathname reads after pushState of an absolute path. */
  function Pathname(url: string): string
    requires url != ""
  {
    var r := Undotted(Split(url[1..]), |Split(url[1..])|);
    "/" + if r == [] then "" else Join(r)
  }

  // ---- resolveKvRest ----

  datatype Selection = Selection(ns: Option<string>, key: Option<string>)

  /** What a decoded path selects: itself if it is a known namespace, else its last segment
      under its parent if that is one, else itself as an unknown namespace. */
  function Resolved(path: string, names: seq<string>): Selection {
    if path in names then Selection(Some(path), None)
    else if |Split(path)| >= 2 && LastSegment(path) != "" && ParentPath(path) in names
    then Selection(Some(ParentPath(path)), Some(LastSegment(path)))
    else Selection(Some(path), None)
  }

  function DecodeRest(c: UriCodec, rest: string): string { Join(Mapped(c.decode, Split(rest))) }

  predicate LongestFirst(names: seq<string>) {
    forall i, j | 0 <= i < j < |names| :: |names[i]| >= |names[j]|
  }

  /** A stable insertion behind every name that is at least as long. */
  function InsertName(sorted: seq<string>, name: string): seq<string> {
    if sorted == [] || |sorted[0]| < |name| then [name] + sorted
    else [sorted[0]] + InsertName(sorted[1..], name)
  }

  lemma {:induction false} InsertNameContent(sorted: seq<string>, name: string)
    ensures multiset(InsertName(sorted, name)) == multiset(sorted) + multiset{name}
  {
    if !(sorted == [] || |sorted[0]| < |name|) {
      InsertNameContent(sorted[1..], name);
      assert sorted == [sorted[0]] + sorted[1..];
    }
  }

  lemma {:induction false} InsertNameOrder(sorted: seq<string>, name: string)
    requires LongestFirst(sorted)
    ensures LongestFirst(InsertName(sorted, name))
  {
    if !(sorted == [] || |sorted[0]| < |name|) {
      var rest := InsertName(sorted[1..], name);
      InsertNameOrder(sorted[1..], name);
      InsertNameContent(sorted[1..], name);
      forall j | 0 <= j < |rest| ensures |rest[j]| <= |sorted[0]| {
        assert rest[j] in multiset(rest);
        assert rest[j] == name || rest[j] in sorted[1..];
      }
    }
  }

  /** sort((a, b) => b.length - a.length) */
  function SortByLength(names: seq<string>): (r: seq<string>)
    ensures LongestFirst(r) && multiset(r) == multiset(names)
  {
    if names == [] then [] else
    var n := |names| - 1;
    assert names == names[..n] + [names[n]];
    InsertNameContent(SortByLength(names[..n]), names[n]);
    InsertNameOrder(SortByLength(names[..n]), names[n]);
    InsertName(SortByLength(names[..n]), names[n])
  }

  /** The key that `name` would leave over in `path`, if it is one. */
  predicate LeavesKey(path: string, name: string) {
    name + "/" <= path && path != name + "/" && '/' !in path[|name| + 1..]
  }

  lemma LeavesKeyIsParent(path: string, name: string)
    ensures LeavesKey(path, name) <==> |Split(path)| >= 2 && LastSegment(path) != "" && ParentPath(path) == name
    ensures LeavesKey(path, name) ==> LastSegment(path) == path[|name| + 1..]
  {
    if LeavesKey(path, name) {
      assert path == KVKey(name, path[|name| + 1..]);
      SplitUndoesKVKey(path, name, path[|name| + 1..]);
    }
    if |Split(path)| >= 2 && LastSegment(path) != "" && ParentPath(path) == name {
      SegmentsHaveNoSlash(path, |Split(path)| - 1);
      SplitUndoesKVKey(path, name, LastSegment(path));
      assert path[|name| + 1..] == LastSegment(path);
    }
  }

  /** The scan over the names, longest first, finds what the path selects, for every set of
      names in every order. */
  method ResolveKvRest(c: UriCodec, rest: string, names: seq<string>) returns (r: Selection)
    ensures r == if rest == "" then Selection(None, None) else Resolved(DecodeRest(c, rest), names)
  {
    if rest == "" {
      return Selection(None, None);
    }
    var decoded := DecodeRest(c, rest);
    var sorted := SortByLength(names);
    SameElements(sorted, names);
    for i := 0 to |sorted|
      invariant forall j | 0 <= j < i :: sorted[j] != decoded && !LeavesKey(decoded, sorted[j])
    {
      var name := sorted[i];
      LeavesKeyIsParent(decoded, name);
      assert name in sorted;
      if decoded == name {
        return Selection(Some(name), None);
      }
      if name + "/" <= decoded {
        var key := decoded[|name| + 1..];
        if key != "" && '/' !in key {
          LongerComesFirst(sorted, decoded, i);
          return Selection(Some(name), Some(key));
        }
      }
    }
    if |Split(decoded)| >= 2 { LeavesKeyIsParent(decoded, ParentPath(decoded)); }
    r := Selection(Some(decoded), None);
  }

  lemma SameElements(a: seq<string>, b: seq<string>)
    requires multiset(a) == multiset(b)
    ensures forall n :: n in a <==> n in b
  {
    forall n ensures n in a <==> n in b {
      assert n in a <==> n in multiset(a);
      assert n in b <==> n in multiset(b);
    }
  }

  lemma LongerComesFirst(sorted: seq<string>, path: string, i: nat)
    requires LongestFirst(sorted) && i < |sorted| && |sorted[i]| < |path|
    requires forall j | 0 <= j < i :: sorted[j] != path
    ensures path !in sorted
  {
  }

  // ---- Round trip ----

  lemma PlainName(s: string)
    requires forall i | 0 <= i < |s| :: KeyChar(s[i])
    ensures Plain(s) && '%' !in s && '/' !in s
  {
  }

  lemma MappedIdentity(f: string -> string, segs: seq<string>)
    requires forall i | 0 <= i < |segs| :: f(segs[i]) == segs[i]
    ensures Mapped(f, segs) == segs
  {
  }

  lemma EncodedNamespace(c: UriCodec, ns: string)
    requires Standard(c) && ValidNamespace(ns)
    ensures Join(Mapped(c.encode, Split(ns))) == ns
  {
    forall i | 0 <= i < |Split(ns)| ensures c.encode(Split(ns)[i]) == Split(ns)[i] {
      assert ValidSegment(Split(ns)[i]);
      PlainName(Split(ns)[i]);
    }
    MappedIdentity(c.encode, Split(ns));
    JoinSplit(ns);
  }

  lemma EncodedKey(c: UriCodec, key: string)
    requires Standard(c) && ValidKey(key)
    ensures c.encode(key) == key
  {
    PlainName(key);
  }

  /** Encoding changes nothing in a valid selection. */
  lemma UrlOfName(c: UriCodec, ns: string, key: string)
    requires Standard(c) && ValidNamespace(ns) && ValidKey(key)
    ensures BuildUrl(c, "secrets", ns, key) == "/ui/kv/" + KVKey(ns, key)
  {
    UrlOfNamespace(c, ns);
    EncodedKey(c, key);
  }

  lemma UrlOfNamespace(c: UriCodec, ns: string)
    requires Standard(c) && ValidNamespace(ns)
    ensures BuildUrl(c, "secrets", ns, "") == "/ui/kv/" + ns
    ensures forall key | key != "" :: BuildUrl(c, "secrets", ns, key) == "/ui/kv/" + ns + "/" + c.encode(key)
  {
    EncodedNamespace(c, ns);
    assert "/ui/kv/" + ns == "/ui/kv" + ("/" + ns);
  }

  predicate Dot(seg: string) { seg == "." || seg == ".." }

  predicate NoDots(segs: seq<string>) { forall i | 0 <= i < |segs| :: !Dot(segs[i]) }

  /** The segments of every path below the secrets panel start with these. */
  const ROOT: seq<string> := ["ui", "kv"]

  lemma SegmentsBelow(path: string)
    ensures Split("ui/kv/" + path) == ROOT + Split(path) && Split(("/ui/kv/" + path)[1..]) == ROOT + Split(path)
  {
    SplitAtSlash("kv", path);
    SplitAtSlash("ui", "kv" + "/" + path);
    SplitOne("ui");
    SplitOne("kv");
    assert "ui/kv/" + path == "ui" + "/" + ("kv" + "/" + path) == ("/ui/kv/" + path)[1..];
    assert ROOT + Split(path) == ["ui"] + (["kv"] + Split(path));
  }

  lemma NamespaceHasNoDots(ns: string)
    requires ValidNamespace(ns)
    ensures NoDots(Split(ns))
  {
    forall i | 0 <= i < |Split(ns)| ensures !Dot(Split(ns)[i]) {
      assert ValidSegment(Split(ns)[i]) && NamespaceChar(Split(ns)[i][0]);
    }
  }

  lemma {:induction false} NothingToUndot(segs: seq<string>, i: nat)
    requires i <= |segs| && NoDots(segs[..i])
    ensures Undotted(segs, i) == segs[..i]
  {
    if i > 0 {
      assert segs[i - 1] == segs[..i][i - 1];
      assert segs[..i - 1] == segs[..i][..i - 1];
      NothingToUndot(segs, i - 1);
    }
  }

  lemma RootUndotted(own: seq<string>, tail: seq<string>)
    requires NoDots(own)
    ensures Undotted(ROOT + own + tail, |ROOT + own|) == ROOT + own
  {
    assert (ROOT + own + tail)[..|ROOT + own|] == ROOT + own;
    NothingToUndot(ROOT + own + tail, |ROOT + own|);
  }

  lemma JoinRoot(segs: seq<string>)
    requires segs != []
    ensures "/" + Join(ROOT + segs) == "/ui/kv/" + Join(segs)
  {
    JoinConcat(ROOT, segs);
  }

  /** The browser leaves a path without dot segments as it is. */
  lemma PathnameKept(path: string)
    requires NoDots(Split(path))
    ensures Pathname("/ui/kv/" + path) == "/ui/kv/" + path
  {
    SegmentsBelow(path);
    RootUndotted(Split(path), []);
    assert ROOT + Split(path) + [] == ROOT + Split(path);
    JoinSplit(path);
    JoinRoot(Split(path));
  }

  lemma KeySegments(ns: string, key: string)
    requires ValidNamespace(ns) && ValidKey(key)
    ensures Split(KVKey(ns, key)) == Split(ns) + [key]
    ensures Dot(key) || NoDots(Split(KVKey(ns, key)))
  {
    PlainName(key);
    SplitAtSlash(ns, key);
    SplitOne(key);
    NamespaceHasNoDots(ns);
  }

  /** A dot key takes one segment, or two, off the path and leaves a slash at its end. */
  lemma PathnameOfDot(ns: string, key: string)
    requires ValidNamespace(ns) && Dot(key)
    ensures var kept := if key == "." then Split(ns) else Split(ns)[..|Split(ns)| - 1];
      Pathname("/ui/kv/" + KVKey(ns, key)) == "/ui/kv/" + Join(kept + [""])
  {
    KeySegments(ns, key);
    NamespaceHasNoDots(ns);
    SegmentsBelow(KVKey(ns, key));
    RootUndotted(Split(ns), [key]);
    assert ROOT + (Split(ns) + [key]) == ROOT + Split(ns) + [key];
    UndotLast(Split(ns), key);
    JoinRoot((if key == "." then Split(ns) else Split(ns)[..|Split(ns)| - 1]) + [""]);
  }

  lemma UndotLast(own: seq<string>, key: string)
    requires Dot(key) && own != [] && Undotted(ROOT + own + [key], |ROOT + own|) == ROOT + own
    ensures Undotted(ROOT + own + [key], |ROOT + own| + 1)
      == ROOT + ((if key == "." then own else own[..|own| - 1]) + [""])
  {
    assert (ROOT + own)[..|ROOT + own| - 1] == ROOT + own[..|own| - 1];
  }

  /** What the UI shows after the URL is built, put in the address bar and read back. */
  function Reopened(c: UriCodec, url: string, names: seq<string>): Selection
    requires url != ""
  {
    var rest := ParseRoute(Pathname(url)).kvRest;
    if rest == "" then Selection(None, None) else Resolved(DecodeRest(c, rest), names)
  }

  lemma NoSlashAtEnd(ns: string)
    requires ValidNamespace(ns)
    ensures ns[|ns| - 1] != '/' && '%' !in ns
  {
    SegmentChars(ns);
    assert ValidSegment(Split(ns)[|Split(ns)| - 1]);
    var head, last := ns[..|ns| - 1], [ns[|ns| - 1]];
    assert ns == head + last && head + "/" + "" == head + "/";
    SplitAtSlash(head, "");
  }

  lemma DecodePlain(c: UriCodec, rest: string)
    requires Standard(c) && '%' !in rest
    ensures DecodeRest(c, rest) == rest
  {
    forall i | 0 <= i < |Split(rest)| ensures c.decode(Split(rest)[i]) == Split(rest)[i] {
      SegmentChar(rest, i, '%');
    }
    MappedIdentity(c.decode, Split(rest));
    JoinSplit(rest);
  }

  lemma {:induction false} SegmentChar(s: string, i: nat, ch: char)
    requires i < |Split(s)| && ch !in s
    ensures ch !in Split(s)[i]
  {
    if s != "" {
      assert s[0] in s && forall x | x in s[1..] :: x in s;
      if s[0] == '/' {
        if i > 0 { SegmentChar(s[1..], i - 1, ch); }
      } else {
        SegmentChar(s[1..], i, ch);
      }
    }
  }

  /** A path that needs no decoding and does not end in a slash is read back whole. */
  lemma ReopenedPath(c: UriCodec, url: string, path: string, names: seq<string>)
    requires Standard(c) && url != "" && Pathname(url) == "/ui/kv/" + path
    requires path != "" && '%' !in path && path[|path| - 1] != '/'
    ensures Reopened(c, url, names) == Resolved(path, names)
  {
    DecodePlain(c, path);
    assert ("/ui/kv/" + path)[7..] == path;
  }

  lemma SelectedKeyMakesPath(path: string, names: seq<string>, ns: string, key: string)
    requires '/' !in key
    ensures Resolved(path, names) == Selection(Some(ns), Some(key)) <==>
      path !in names && key != "" && path == KVKey(ns, key) && ns in names
  {
    SplitUndoesKVKey(path, ns, key);
    if |Split(path)| >= 2 {
      SegmentsHaveNoSlash(path, |Split(path)| - 1);
    }
  }

  /** The namespace path left by a dot key. */
  function LeftByDot(ns: string, key: string): string {
    if key == "." then ns else if |Split(ns)| >= 2 then ParentPath(ns) else ""
  }

  lemma PathnameLeftByDot(ns: string, key: string)
    requires ValidNamespace(ns) && Dot(key)
    ensures var path := LeftByDot(ns, key);
      && Pathname("/ui/kv/" + KVKey(ns, key)) == "/ui/kv/" + (if path == "" then "" else path + "/")
      && path <= ns
  {
    var own := Split(ns);
    var kept := if key == "." then own else own[..|own| - 1];
    PathnameOfDot(ns, key);
    JoinSplit(ns);
    if kept != [] {
      JoinConcat(kept, [""]);
      PartOfNamespace(ns, |kept|);
    }
  }

  /** The first segments of a namespace, joined, begin it and are not empty. */
  lemma PartOfNamespace(ns: string, n: nat)
    requires ValidNamespace(ns) && 0 < n <= |Split(ns)|
    ensures Join(Split(ns)[..n]) <= ns && Join(Split(ns)[..n]) != ""
  {
    var own := Split(ns);
    JoinSplit(ns);
    assert ValidSegment(own[0]);
    JoinNonEmpty(own[..n]);
    if n < |own| {
      JoinConcat(own[..n], own[n..]);
      assert own == own[..n] + own[n..];
    } else {
      assert own[..n] == own;
    }
  }

  /** What a dot key leaves is too short to name the selection. */
  lemma DotKeyIsLost(c: UriCodec, ns: string, key: string, names: seq<string>)
    requires Standard(c) && ValidNamespace(ns) && Dot(key)
    ensures Reopened(c, "/ui/kv/" + KVKey(ns, key), names) != Selection(Some(ns), Some(key))
  {
    var path := LeftByDot(ns, key);
    PathnameLeftByDot(ns, key);
    NoSlashAtEnd(ns);
    if path != "" {
      CutAtSlash(path);
      DecodePlain(c, path);
      SelectedKeyMakesPath(path, names, ns, key);
    }
  }

  lemma CutAtSlash(path: string)
    requires path != ""
    ensures ParseRoute("/ui/kv/" + (path + "/")) == Parsed("secrets", path)
  {
    assert ("/ui/kv/" + (path + "/"))[..|path| + 7] == "/ui/kv/" + path;
    assert ("/ui/kv/" + path)[7..] == path;
  }

  /** Round trip: with a known namespace, the URL of a valid selection reads back as that
      selection, for every list of names, if and only if `ns/key` is not itself a known
      namespace and the key is not a dot segment. */
  lemma UrlRoundTrip(c: UriCodec, ns: string, key: string, names: seq<string>)
    requires Standard(c) && ValidNamespace(ns) && ValidKey(key) && ns in names
    ensures Reopened(c, BuildUrl(c, "secrets", ns, key), names) == Selection(Some(ns), Some(key)) <==>
      KVKey(ns, key) !in names && key != "." && key != ".."
  {
    UrlOfName(c, ns, key);
    PlainName(key);
    NoSlashAtEnd(ns);
    KeySegments(ns, key);
    if Dot(key) {
      DotKeyIsLost(c, ns, key, names);
    } else {
      PathnameKept(KVKey(ns, key));
      ReopenedPath(c, "/ui/kv/" + KVKey(ns, key), KVKey(ns, key), names);
      SelectedKeyMakesPath(KVKey(ns, key), names, ns, key);
    }
  }

  /** A namespace alone reads back as itself, known or not, unless its parent is known and it is not. */
  lemma NamespaceRoundTrip(c: UriCodec, ns: string, names: seq<string>)
    requires Standard(c) && ValidNamespace(ns)
    ensures Reopened(c, BuildUrl(c, "secrets", ns, ""), names) == Selection(Some(ns), None) <==>
      ns in names || |Split(ns)| == 1 || ParentPath(ns) !in names
  {
    UrlOfNamespace(c, ns);
    NoSlashAtEnd(ns);
    NamespaceHasNoDots(ns);
    PathnameKept(ns);
    ReopenedPath(c, "/ui/kv/" + ns, ns, names);
    assert ValidSegment(LastSegment(ns));
  }

  /** The address of every panel reads back as that panel. */
  lemma PanelRoundTrip(c: UriCodec, panel: string)
    requires panel in {"tokens", "roles", "audit", "watch"}
    ensures BuildUrl(c, panel, "", "") == "/ui/" + panel && ParseRoute("/ui/" + panel) == Parsed(panel, "")
  {
    assert "/ui/kv/"[4] == 'k' && ("/ui/" + panel)[4] == panel[0];
  }

  /** What a decoded path selects, without its split: a known namespace as such, else a key of a
      known namespace, else the path itself as a namespace. */
  lemma ResolvedExact(path: string, names: seq<string>)
    ensures path in names ==> Resolved(path, names) == Selection(Some(path), None)
    ensures forall ns, key | path !in names && key != "" && '/' !in key && ns in names && path == ns + "/" + key ::
      Resolved(path, names) == Selection(Some(ns), Some(key))
    ensures Resolved(path, names).key.None? ==> Resolved(path, names).ns == Some(path)
  {
    forall ns, key | path !in names && key != "" && '/' !in key && ns in names && path == ns + "/" + key
      ensures Resolved(path, names) == Selection(Some(ns), Some(key))
    {
      SelectedKeyMakesPath(path, names, ns, key);
    }
  }

  /** The address of any selection has one encoded segment for each segment of it. */
  lemma EncodedSegments(c: UriCodec, ns: string, key: string)
    requires ns != "" && key != ""
    ensures BuildUrl(c, "secrets", ns, key) == "/ui/kv/" + Join(Mapped(c.encode, Split(ns)) + [c.encode(key)])
  {
    var segs := Mapped(c.encode, Split(ns));
    JoinConcat(segs, [c.encode(key)]);
    assert BuildUrl(c, "secrets", ns, key) == "/ui/kv/" + (Join(segs) + "/" + c.encode(key));
  }

  /** Decoding works segment by segment. */
  lemma DecodedSegments(c: UriCodec, rest: string)
    requires forall i | 0 <= i < |Split(rest)| :: '/' !in c.decode(Split(rest)[i])
    ensures Split(DecodeRest(c, rest)) == Mapped(c.decode, Split(rest))
  {
    assert NoSlashIn(Mapped(c.decode, Split(rest)));
    SplitJoin(Mapped(c.decode, Split(rest)));
  }

  /** With a codec that round-trips, the address of any selection decodes to its path. */
  lemma CodecRoundTrip(c: UriCodec, ns: string, key: string)
    requires ns != "" && key != ""
    requires forall s :: '/' !in c.encode(s) && c.decode(c.encode(s)) == s
    ensures var url := BuildUrl(c, "secrets", ns, key);
      "/ui/kv/" <= url && DecodeRest(c, url[7..]) == Join(Split(ns) + [key])
  {
    var segs := Mapped(c.encode, Split(ns));
    var rest := Join(segs) + "/" + c.encode(key);
    assert BuildUrl(c, "secrets", ns, key) == "/ui/kv/" + rest;
    assert ("/ui/kv/" + rest)[7..] == rest;
    assert NoSlashIn(segs);
    SplitJoin(segs);
    SplitAtSlash(Join(segs), c.encode(key));
    SplitOne(c.encode(key));
    assert Split(rest) == segs + [c.encode(key)];
    assert Mapped(c.decode, segs + [c.encode(key)]) == Split(ns) + [key];
  }
}
