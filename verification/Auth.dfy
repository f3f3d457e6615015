/** Access decisions and the token service. */
module Auth {
  import opened Wrappers
  import opened Names
  import opened Channels
  import opened ByteOrder

  datatype Scope = Scope(namespace: string, read: bool, write: bool)

  /** Times are clock readings; a token without an expiry does not expire. */
  datatype Token = Token(
    id: string, token: string, scopes: seq<Scope>, role: string, metadata: map<string, string>,
    createdAt: int, expiresAt: Option<int>)

  // ---- HasAccess ----

  const ROLES := {"admin", "developer", "viewer", "operator"}

  /** The read and write rows of the default role table. */
  predicate RoleAllows(role: string, write: bool) {
    role == "admin" || role == "developer" || role == "operator" || (role == "viewer" && !write)
  }

  function Grant(scope: Scope, write: bool): bool { if write then scope.write else scope.read }

  /** One round of the scope loop: the wildcard, the namespace itself, or a starred scope for
      its prefix and everything below. */
  predicate ScopeMatches(scope: string, ns: string) {
    || scope == "*"
    || scope == ns
    || (|scope| >= 2 && scope[|scope| - 2..] == "/*" &&
        var p := scope[..|scope| - 2]; p + "/" <= ns || ns == p)
  }

  /** The first matching scope decides. */
  function ScopesGrant(scopes: seq<Scope>, ns: string, write: bool): bool {
    if scopes == [] then false
    else if ScopeMatches(scopes[0].namespace, ns) then Grant(scopes[0], write)
    else ScopesGrant(scopes[1..], ns, write)
  }

  predicate HasAccess(token: Token, ns: string, write: bool) {
    if |token.scopes| == 0 && token.role == "" then true
    else if token.role != "" then token.role == "admin" || RoleAllows(token.role, write)
    else ScopesGrant(token.scopes, ns, write)
  }

  /** For all strings, the starred scope of `p` matches `ns` exactly when the segments of `p`
      are a prefix of the segments of `ns`; for p other than "*" that is the watch relation. */
  lemma ScopeIsAncestry(p: string, ns: string)
    ensures ScopeMatches(p + "/*", ns) <==> Split(p) <= Split(ns)
    ensures p != "*" ==> (ScopeMatches(p + "/*", ns) <==> MatchesNamespace(p, ns))
  {
    var scope := p + "/*";
    assert scope[|scope| - 2..] == "/*" && scope[..|scope| - 2] == p;
    assert scope == (p + "/") + "*";
    SlashPrefixIsAncestor(p, ns);
    WatchAgreesWithList(p, ns);
    if Split(p) == Split(ns) { JoinSplit(p); JoinSplit(ns); }
  }

  /** A scope matches in these cases and no others: the wildcard, the namespace itself, and the
      starred scope of the namespace or of one of its ancestors. */
  lemma ScopeMeaning(scope: string, ns: string)
    ensures ScopeMatches(scope, ns) <==>
      scope == "*" || scope == ns || exists p: string :: scope == p + "/*" && Split(p) <= Split(ns)
  {
    if |scope| >= 2 && scope[|scope| - 2..] == "/*" {
      var p := scope[..|scope| - 2];
      assert scope == p + "/*";
      ScopeIsAncestry(p, ns);
    }
    forall p: string | scope == p + "/*" && Split(p) <= Split(ns) ensures ScopeMatches(scope, ns) {
      ScopeIsAncestry(p, ns);
    }
  }

  /** A role decides alone, whatever the scopes: every default role reads, all but the viewer
      write, an unknown role does neither. Without a role, no scopes mean everything. */
  lemma RoleDecides(token: Token, ns: string, write: bool)
    ensures token.role != "" ==>
      (HasAccess(token, ns, write) <==>
       token.role in {"admin", "developer", "operator"} || (token.role == "viewer" && !write))
    ensures token.role == "" && token.scopes == [] ==> HasAccess(token, ns, write)
    ensures token.role == "" && token.scopes != [] ==>
      (HasAccess(token, ns, write) <==> exists i :: DecidedBy(token.scopes, ns, write, i))
  {
    FirstMatchDecides(token.scopes, ns, write);
  }

  /** Scope `i` grants the access and no earlier scope matches the namespace at all. */
  predicate DecidedBy(scopes: seq<Scope>, ns: string, write: bool, i: int) {
    && 0 <= i < |scopes|
    && ScopeMatches(scopes[i].namespace, ns) && (if write then scopes[i].write else scopes[i].read)
    && forall j | 0 <= j < i :: !ScopeMatches(scopes[j].namespace, ns)
  }

  lemma {:induction false} FirstMatchDecides(scopes: seq<Scope>, ns: string, write: bool)
    ensures ScopesGrant(scopes, ns, write) <==> exists i :: DecidedBy(scopes, ns, write, i)
  {
    if scopes != [] {
      var rest := scopes[1..];
      FirstMatchDecides(rest, ns, write);
      if ScopesGrant(scopes, ns, write) {
        if ScopeMatches(scopes[0].namespace, ns) {
          assert DecidedBy(scopes, ns, write, 0);
        } else {
          var i :| DecidedBy(rest, ns, write, i);
          assert DecidedBy(scopes, ns, write, i + 1);
        }
      }
      if i :| DecidedBy(scopes, ns, write, i) {
        assert i > 0 ==> DecidedBy(rest, ns, write, i - 1);
        assert i > 0 ==> !ScopeMatches(scopes[0].namespace, ns);
      }
    }
  }

  lemma {:induction false} AppendingKeepsGrant(scopes: seq<Scope>, extra: seq<Scope>, ns: string, write: bool)
    ensures ScopesGrant(scopes, ns, write) ==> ScopesGrant(scopes + extra, ns, write)
  {
    if scopes != [] {
      assert (scopes + extra)[1..] == scopes[1..] + extra;
      AppendingKeepsGrant(scopes[1..], extra, ns, write);
    }
  }

  /** Appending scopes turns an allowed request into a refused one in exactly one situation:
      the token had neither role nor scopes, which means unrestricted access, and what is
      appended does not grant the request. */
  lemma AppendingScopes(token: Token, extra: seq<Scope>, ns: string, write: bool)
    requires HasAccess(token, ns, write)
    ensures HasAccess(token.(scopes := token.scopes + extra), ns, write) <==>
      !(token.role == "" && token.scopes == [] && extra != [] && !ScopesGrant(extra, ns, write))
  {
    assert token.scopes == [] ==> token.scopes + extra == extra;
    AppendingKeepsGrant(token.scopes, extra, ns, write);
  }

  /** That situation occurs: an unrestricted token given a read-only scope loses write access. */
  lemma AppendingCanRefuse()
    ensures exists token: Token, extra: seq<Scope> ::
      HasAccess(token, "billing", true) && !HasAccess(token.(scopes := token.scopes + extra), "billing", true)
  {
    var token := Token("id", "t", [], "", map[], 0, None);
    var extra := [Scope("*", true, false)];
    assert token.scopes + extra == extra;
    assert HasAccess(token, "billing", true) && !HasAccess(token.(scopes := token.scopes + extra), "billing", true);
  }

  // ---- Token service ----

  /** IsRootToken. */
  predicate IsRootToken(t: Token) {
    || ("type" in t.metadata && t.metadata["type"] == "root")
    || t.role == "admin"
    || (t.role == "" && |t.scopes| == 0)
  }

  /** An unrestricted token and an administrator are root tokens with access to everything; any
      other root token is one only by its metadata, and its access is that of its role or scopes. */
  lemma RootMeaning(t: Token)
    ensures (t.role == "" && t.scopes == []) || t.role == "admin" ==>
      IsRootToken(t) && forall ns, write :: HasAccess(t, ns, write)
    ensures !((t.role == "" && t.scopes == []) || t.role == "admin") ==>
      (IsRootToken(t) <==> "type" in t.metadata && t.metadata["type"] == "root")
  {
  }

  function Roots(tokens: map<string, Token>): set<string> {
    set s | s in tokens && IsRootToken(tokens[s])
  }

  datatype TokenOp = Create(created: Token) | Revoke(token: string)

  /** A revocation is refused for an unknown token and for the last root token. */
  predicate MayRevoke(tokens: map<string, Token>, s: string) {
    s in tokens && (IsRootToken(tokens[s]) ==> |Roots(tokens)| > 1)
  }

  /** A token may be revoked exactly when it is stored and is no root or not the only one. */
  lemma MayRevokeExact(tokens: map<string, Token>, s: string)
    ensures MayRevoke(tokens, s) <==> (
      s in tokens &&
      (!IsRootToken(tokens[s]) || exists other :: other in tokens && other != s && IsRootToken(tokens[other])))
  {
    if s in tokens && IsRootToken(tokens[s]) {
      assert Roots(tokens) == {s} + (Roots(tokens) - {s});
      if other :| other in tokens && other != s && IsRootToken(tokens[other]) {
        assert other in Roots(tokens) - {s};
        assert |Roots(tokens) - {s}| > 0;
      } else {
        assert Roots(tokens) - {s} == {};
      }
    }
  }

  /** One atomic token operation; token strings are drawn fresh. */
  function TokenStep(tokens: map<string, Token>, op: TokenOp): map<string, Token> {
    match op
    case Create(t) => if t.role in ROLES + {""} && t.token !in tokens then tokens[t.token := t] else tokens
    case Revoke(s) => if MayRevoke(tokens, s) then tokens - {s} else tokens
  }

  function TokenRun(tokens: map<string, Token>, ops: seq<TokenOp>): map<string, Token> {
    if ops == [] then tokens else TokenStep(TokenRun(tokens, ops[..|ops| - 1]), ops[|ops| - 1])
  }

  lemma StepKeepsRoot(tokens: map<string, Token>, op: TokenOp)
    requires Roots(tokens) != {}
    ensures Roots(TokenStep(tokens, op)) != {}
  {
    var r :| r in Roots(tokens);
    match op
    case Create(t) => assert r in Roots(TokenStep(tokens, op));
    case Revoke(s) =>
      if MayRevoke(tokens, s) && IsRootToken(tokens[s]) {
        assert Roots(tokens) != {s} by { assert |{s}| == 1; }
        var other :| other in Roots(tokens) && other != s;
        assert other in Roots(TokenStep(tokens, op));
      } else {
        assert r in Roots(TokenStep(tokens, op));
      }
  }

  /** Root safety over serial runs: once a root token exists, one exists after any sequence of
      atomic creations and revocations. */
  lemma {:induction false} RootSurvives(tokens: map<string, Token>, ops: seq<TokenOp>)
    requires Roots(tokens) != {}
    ensures Roots(TokenRun(tokens, ops)) != {}
  {
    if ops != [] {
      RootSurvives(tokens, ops[..|ops| - 1]);
      StepKeepsRoot(TokenRun(tokens, ops[..|ops| - 1]), ops[|ops| - 1]);
    }
  }

  /** ValidateToken compares with the clock; the instant of expiry itself is still valid. */
  predicate Expired(t: Token, now: int) { t.expiresAt.Some? && now > t.expiresAt.value }

  function UsableRoots(tokens: map<string, Token>, now: int): set<string> {
    set s | s in Roots(tokens) && !Expired(tokens[s], now)
  }

  function PermanentRoots(tokens: map<string, Token>): set<string> {
    set s | s in Roots(tokens) && tokens[s].expiresAt.None?
  }

  /** A token that validates validates at every earlier time. */
  lemma ExpiryIsFinal(t: Token, now: int, later: int)
    requires now <= later
    ensures Expired(t, now) ==> Expired(t, later)
    ensures Expired(t, now) <==> t.expiresAt.Some? && t.expiresAt.value < now
  {
  }

  lemma {:induction false} AfterAllExpiries(tokens: map<string, Token>, some: set<string>) returns (now: int)
    requires some <= tokens.Keys
    ensures forall s | s in some && tokens[s].expiresAt.Some? :: Expired(tokens[s], now)
  {
    if some == {} { return 0; }
    var s :| s in some;
    now := AfterAllExpiries(tokens, some - {s});
    if tokens[s].expiresAt.Some? && tokens[s].expiresAt.value >= now { now := tokens[s].expiresAt.value + 1; }
    forall x | x in some && tokens[x].expiresAt.Some? ensures Expired(tokens[x], now) {
      assert x == s || x in some - {s};
    }
  }

  /** A root token that validates is there at all times if and only if one of the stored root
      tokens has no expiry. */
  lemma UsableForever(tokens: map<string, Token>)
    ensures (forall now :: UsableRoots(tokens, now) != {}) <==> PermanentRoots(tokens) != {}
  {
    if PermanentRoots(tokens) != {} {
      var s :| s in PermanentRoots(tokens);
      assert forall now :: s in UsableRoots(tokens, now);
    } else {
      var now := AfterAllExpiries(tokens, Roots(tokens));
      assert UsableRoots(tokens, now) == {};
    }
  }

  /** One operation leaves the store without a permanent root exactly when it revokes the last
      one, which is allowed as soon as an expiring root is stored beside it. */
  lemma StepKeepsPermanentRoot(tokens: map<string, Token>, op: TokenOp)
    requires PermanentRoots(tokens) != {}
    ensures PermanentRoots(TokenStep(tokens, op)) == {} <==>
      op.Revoke? && PermanentRoots(tokens) == {op.token} && |Roots(tokens)| > 1
  {
    var after := TokenStep(tokens, op);
    match op
    case Create(t) =>
      var s :| s in PermanentRoots(tokens);
      assert s in PermanentRoots(after);
    case Revoke(s) =>
      if MayRevoke(tokens, s) {
        assert PermanentRoots(after) == PermanentRoots(tokens) - {s};
        assert s in PermanentRoots(tokens) ==> s in Roots(tokens);
      }
  }

  /** No operation of the run revokes the last permanent root. */
  predicate KeepsLastPermanent(tokens: map<string, Token>, ops: seq<TokenOp>) {
    ops == [] || (
      var before, op := TokenRun(tokens, ops[..|ops| - 1]), ops[|ops| - 1];
      KeepsLastPermanent(tokens, ops[..|ops| - 1]) && !(op.Revoke? && PermanentRoots(before) == {op.token}))
  }

  /** Over such runs a root token that validates exists at all times. */
  lemma {:induction false} UsableRootSurvives(tokens: map<string, Token>, ops: seq<TokenOp>, now: int)
    requires PermanentRoots(tokens) != {} && KeepsLastPermanent(tokens, ops)
    ensures PermanentRoots(TokenRun(tokens, ops)) != {} && UsableRoots(TokenRun(tokens, ops), now) != {}
  {
    if ops != [] {
      UsableRootSurvives(tokens, ops[..|ops| - 1], now);
      StepKeepsPermanentRoot(TokenRun(tokens, ops[..|ops| - 1]), ops[|ops| - 1]);
    }
    UsableForever(TokenRun(tokens, ops));
  }

  /** Otherwise it can go: with an expiring administrator beside it the permanent root may be
      revoked, and from the expiry on no root validates. */
  lemma LastUsableRootCanGo(root: Token, admin: Token, now: int)
    requires root.role == "admin" && root.expiresAt == None && root.token == "root"
    requires admin.role == "admin" && admin.token == "admin" && Expired(admin, now)
    ensures var tokens := map["root" := root, "admin" := admin];
      && Roots(TokenRun(tokens, [Revoke("root")])) == {"admin"}
      && UsableRoots(TokenRun(tokens, [Revoke("root")]), now) == {}
  {
    var tokens := map["root" := root, "admin" := admin];
    assert Roots(tokens) == {"root", "admin"};
    assert [Revoke("root")][..0] == [];
    assert TokenRun(tokens, [Revoke("root")]) == TokenStep(tokens, Revoke("root"));
  }

  lemma {:induction false} CountIsCardinality(tokens: map<string, Token>, order: seq<string>, i: nat)
    requires i <= |order| && Ascending(order) && forall k | k in order :: k in tokens
    ensures |set j | 0 <= j < i && IsRootToken(tokens[order[j]]) :: order[j]| == RootsAmong(tokens, order, i)
  {
    var s := set j | 0 <= j < i && IsRootToken(tokens[order[j]]) :: order[j];
    if i > 0 {
      CountIsCardinality(tokens, order, i - 1);
      var before := set j | 0 <= j < i - 1 && IsRootToken(tokens[order[j]]) :: order[j];
      if IsRootToken(tokens[order[i - 1]]) {
        assert s == before + {order[i - 1]};
        LessIrreflexive(order[i - 1]);
        assert order[i - 1] !in before;
      } else {
        assert s == before;
      }
    }
  }

  /** The counting loop of RevokeToken after `i` of the listed tokens. */
  function RootsAmong(tokens: map<string, Token>, order: seq<string>, i: nat): nat
    requires i <= |order| && forall k | k in order :: k in tokens
  {
    if i == 0 then 0 else RootsAmong(tokens, order, i - 1) + if IsRootToken(tokens[order[i - 1]]) then 1 else 0
  }

  lemma CountingCountsRoots(tokens: map<string, Token>)
    ensures RootsAmong(tokens, SortedKeys(tokens.Keys), |tokens.Keys|) == |Roots(tokens)|
  {
    var order := SortedKeys(tokens.Keys);
    SortedKeysAscending(tokens.Keys);
    CountIsCardinality(tokens, order, |order|);
    assert Roots(tokens) == set j | 0 <= j < |order| && IsRootToken(tokens[order[j]]) :: order[j];
  }

  class Service {
    /** The token bucket. */
    var tokens: map<string, Token>

    constructor ()
      ensures tokens == map[]
    {
      tokens := map[];
    }

    /** ForEach over the bucket: the stored tokens in key order. */
    method ListTokens() returns (list: seq<Token>)
      ensures |list| == |tokens.Keys|
      ensures forall i | 0 <= i < |list| ::
        SortedKeys(tokens.Keys)[i] in tokens && list[i] == tokens[SortedKeys(tokens.Keys)[i]]
    {
      var keys := SortedKeys(tokens.Keys);
      list := [];
      var i := 0;
      while i < |keys|
        invariant 0 <= i <= |keys| && |list| == i
        invariant forall j | 0 <= j < i :: keys[j] in tokens && list[j] == tokens[keys[j]]
      {
        assert keys[i] in keys;
        list := list + [tokens[keys[i]]];
        i := i + 1;
      }
    }

    method ValidateToken(tokenStr: string, now: int) returns (r: Result<Token>)
      ensures r.Ok? <==> (
        tokenStr in tokens && (tokens[tokenStr].expiresAt == None || now <= tokens[tokenStr].expiresAt.value))
      ensures r.Ok? <==> tokenStr in tokens && !Expired(tokens[tokenStr], now)
      ensures r.Ok? ==> r.value == tokens[tokenStr]
      ensures r.Err? ==> r.error == if tokenStr in tokens then TokenExpired else TokenNotFound
    {
      if tokenStr !in tokens {
        return Err(TokenNotFound);
      }
      var token := tokens[tokenStr];
      if token.expiresAt.Some? && now > token.expiresAt.value {
        return Err(TokenExpired);
      }
      r := Ok(token);
    }

    /** GenerateToken: `id` and `tokenStr` are the random draws, `created` and `now` the clock
        readings for creation and expiry; a role must be a known one. */
    method GenerateToken(id: string, tokenStr: string, scopes: seq<Scope>, role: string, expiresIn: Option<int>,
                         metadata: map<string, string>, created: int, now: int)
      returns (r: Result<Token>)
      requires tokenStr !in tokens
      modifies this
      ensures r.Ok? <==> role in {"", "admin", "developer", "viewer", "operator"}
      ensures r.Ok? ==>
        && (r.value.id, r.value.token, r.value.scopes, r.value.role) == (id, tokenStr, scopes, role)
        && r.value.metadata == metadata && r.value.createdAt == created
        && r.value.expiresAt == (if expiresIn.Some? then Some(now + expiresIn.value) else None)
        && tokens == TokenStep(old(tokens), Create(r.value))
        && tokens == old(tokens)[tokenStr := r.value]
        && forall later: int :: !Expired(r.value, later) <==> expiresIn == None || later <= now + expiresIn.value
      ensures r.Err? ==> tokens == old(tokens)
    {
      if role != "" && role !in ROLES {
        return Err(InvalidRole);
      }
      var token := Token(id, tokenStr, scopes, role, metadata, created, None);
      if expiresIn.Some? {
        token := token.(expiresAt := Some(now + expiresIn.value));
      }
      tokens := tokens[tokenStr := token];
      r := Ok(token);
    }

    /** InitializeRootToken works on an empty bucket only and leaves one root token. */
    method InitializeRootToken(id: string, tokenStr: string, created: int) returns (r: Result<Token>)
      modifies this
      ensures r.Ok? <==> old(tokens) == map[]
      ensures r.Ok? ==> Roots(tokens) == {tokenStr} == tokens.Keys
      ensures r.Ok? ==> tokens[tokenStr] == r.value
      ensures r.Ok? ==> (
        r.value == Token(id, tokenStr, [], "admin", map["name" := "root", "type" := "root"], created, None))
      ensures r.Err? ==> tokens == old(tokens)
    {
      var list := ListTokens();
      if |list| > 0 {
        assert SortedKeys(tokens.Keys)[0] in tokens;
        return Err(TokensExist);
      }
      assert tokens == map[] by {
        assert forall k | k in tokens :: k in SortedKeys(tokens.Keys);
      }
      r := GenerateToken(id, tokenStr, [], "admin", None, map["name" := "root", "type" := "root"], created, created);
    }

    /** RevokeToken removes exactly its target, and never the last root token. */
    method RevokeToken(tokenStr: string) returns (r: Result<()>)
      modifies this
      ensures r.Ok? <==> MayRevoke(old(tokens), tokenStr)
      ensures r.Err? ==> r.error == if tokenStr in old(tokens) then LastRootToken else TokenNotFound
      ensures tokens == TokenStep(old(tokens), Revoke(tokenStr))
      ensures r.Ok? ==> tokens == old(tokens) - {tokenStr}
    {
      if tokenStr !in tokens {
        return Err(TokenNotFound);
      }
      if IsRootToken(tokens[tokenStr]) {
        var list := ListTokens();
        ghost var order := SortedKeys(tokens.Keys);
        var rootCount, i := 0, 0;
        while i < |list|
          invariant 0 <= i <= |list| && rootCount == RootsAmong(tokens, order, i)
        {
          if IsRootToken(list[i]) {
            rootCount := rootCount + 1;
          }
          i := i + 1;
        }
        CountingCountsRoots(tokens);
        if rootCount <= 1 {
          return Err(LastRootToken);
        }
      }
      tokens := tokens - {tokenStr};
      r := Ok(());
    }
  }
}
