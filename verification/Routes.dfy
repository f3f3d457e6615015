/** How the API reads a (namespace, key) out of a request path. */
module Routes {
  import opened Names

  /** looksLikeKeyName on ASCII names: an underscore or an upper-case letter. */
  predicate LooksLikeKeyName(s: string) {
    '_' in s || exists i :: 0 <= i < |s| && 'A' <= s[i] <= 'Z'
  }

  /** Everything before the last segment, joined again. */
  function ParentPath(path: string): string
    requires |Split(path)| >= 2
  {
    Join(Split(path)[..|Split(path)| - 1])
  }

  function LastSegment(path: string): string { Split(path)[|Split(path)| - 1] }

  lemma {:induction false} SegmentsHaveNoSlash(s: string, i: nat)
    requires i < |Split(s)|
    ensures '/' !in Split(s)[i]
  {
    if s != "" {
      var r := Split(s[1..]);
      if s[0] == '/' {
        if i > 0 { SegmentsHaveNoSlash(s[1..], i - 1); }
      } else {
        SegmentsHaveNoSlash(s[1..], i);
      }
    }
  }

  /** Splitting at the last '/' undoes makeKVKey, and makeKVKey undoes the split. */
  lemma SplitUndoesKVKey(path: string, ns: string, key: string)
    requires '/' !in key
    ensures path == KVKey(ns, key) <==> |Split(path)| >= 2 && ParentPath(path) == ns && LastSegment(path) == key
  {
    if path == KVKey(ns, key) {
      SplitAtSlash(ns, key);
      SplitOne(key);
      assert Split(path)[..|Split(path)| - 1] == Split(ns);
      JoinSplit(ns);
    }
    if |Split(path)| >= 2 {
      var segs, n := Split(path), |Split(path)| - 1;
      assert segs == segs[..n] + [segs[n]];
      JoinConcat(segs[..n], [segs[n]]);
      JoinSplit(path);
    }
  }

  // ---- Routing of GET /v1/kv/... ----

  datatype Route = KeyVersions(ns: string, key: string) | KeyOrListing(path: string)

  /** The versions route is registered first and takes every path it matches. */
  function RouteGet(path: string): Route {
    var segs, n := Split(path), |Split(path)|;
    if n >= 3 && segs[n - 1] == "versions" && segs[n - 2] != "" && Join(segs[..n - 2]) != ""
    then KeyVersions(Join(segs[..n - 2]), segs[n - 2])
    else KeyOrListing(path)
  }

  /** The path of a valid name reaches the key handler, except a key named `versions` under a
      namespace of two or more levels: that is read as the history of its last level. */
  lemma PathOfKeyReachesHandler(ns: string, key: string)
    requires ValidNamespace(ns) && ValidKey(key)
    ensures RouteGet(KVKey(ns, key)) ==
      if key == "versions" && |Split(ns)| >= 2 then KeyVersions(ParentPath(ns), LastSegment(ns))
      else KeyOrListing(KVKey(ns, key))
  {
    ValidNameFacts(ns, key);
    SplitAtSlash(ns, key);
    SplitOne(key);
    var segs, n := Split(KVKey(ns, key)), |Split(ns)|;
    assert segs == Split(ns) + [key];
    if n >= 2 {
      assert segs[..n - 1] == Split(ns)[..n - 1];
      assert ValidSegment(Split(ns)[0]) && ValidSegment(Split(ns)[n - 1]);
      JoinNonEmpty(Split(ns)[..n - 1]);
    }
  }

  lemma JoinNonEmpty(segs: seq<string>)
    requires segs != [] && segs[0] != ""
    ensures Join(segs) != ""
  {
  }

  /** strings.ToLower on ASCII. */
  function Lower(s: string): (r: string)
    ensures |r| == |s|
  {
    seq(|s|, i requires 0 <= i < |s| => if 'A' <= s[i] <= 'Z' then (s[i] as int + 32) as char else s[i])
  }

  /** The heuristic as the source computes it. */
  lemma LooksLikeKeyNameExact(s: string)
    ensures LooksLikeKeyName(s) <==> '_' in s || s != Lower(s)
  {
    if i :| 0 <= i < |s| && 'A' <= s[i] <= 'Z' {
      assert Lower(s)[i] != s[i];
    } else {
      assert Lower(s) == s;
    }
  }

  function HistoryPath(ns: string, key: string): string { KVKey(KVKey(ns, key), "versions") }

  lemma HistoryPathSegments(ns: string, key: string)
    requires '/' !in key
    ensures Split(HistoryPath(ns, key)) == Split(ns) + [key] + ["versions"]
  {
    SplitAtSlash(KVKey(ns, key), "versions");
    SplitAtSlash(ns, key);
    SplitOne(key);
    SplitOne("versions");
  }

  lemma HistoryPathTaken(ns: string, key: string)
    requires ns != "" && key != "" && '/' !in key
    ensures RouteGet(HistoryPath(ns, key)) == KeyVersions(ns, key)
  {
    HistoryPathSegments(ns, key);
    var segs, n := Split(HistoryPath(ns, key)), |Split(HistoryPath(ns, key))|;
    assert segs[..n - 2] == Split(ns) && segs[n - 2] == key && segs[n - 1] == "versions";
    JoinSplit(ns);
  }

  lemma TakenIsHistoryPath(path: string, ns: string, key: string)
    requires RouteGet(path) == KeyVersions(ns, key)
    ensures ns != "" && key != "" && '/' !in key && path == HistoryPath(ns, key)
  {
    var segs, n := Split(path), |Split(path)|;
    SegmentsHaveNoSlash(path, n - 2);
    assert segs == segs[..n - 2] + [key] + ["versions"];
    JoinConcat(segs[..n - 2] + [key], ["versions"]);
    JoinConcat(segs[..n - 2], [key]);
    JoinSplit(path);
  }

  /** The versions route, exactly: `ns/key/versions` with a namespace and a key that are not empty
      and no slash in the key; every other path is a key or a listing. */
  lemma RouteGetExact(path: string, ns: string, key: string)
    ensures RouteGet(path) == KeyVersions(ns, key) <==>
      ns != "" && key != "" && '/' !in key && path == ns + "/" + key + "/" + "versions"
    ensures RouteGet(path).KeyOrListing? ==> RouteGet(path) == KeyOrListing(path)
  {
    if ns != "" && key != "" && '/' !in key { HistoryPathTaken(ns, key); }
    if RouteGet(path) == KeyVersions(ns, key) { TakenIsHistoryPath(path, ns, key); }
  }

  /** The path of a valid name followed by `/versions` asks for the history of that name. */
  lemma PathOfHistory(ns: string, key: string)
    requires ValidNamespace(ns) && ValidKey(key)
    ensures RouteGet(KVKey(ns, key) + "/versions") == KeyVersions(ns, key)
  {
    ValidNameFacts(ns, key);
    assert KVKey(ns, key) + "/versions" == KVKey(ns, key) + "/" + "versions";
    RouteGetExact(KVKey(ns, key) + "/versions", ns, key);
  }
}
