/** Stream identities, scopes and access requests (stream/stream.go,
    stream/stream_s2_control.go). */
module StreamIdentity {
  import opened Outcomes
  import opened Text

  datatype Stream = Stream(tenantID: string, namespace: string, name: string, isMultiTenant: bool)

  datatype Error =
    | MissingNamespace | MissingName | MissingTenantID
    | InvalidScope | InvalidAccessRole | ExpiryTooShort | ExpiryTooLong

  function WithTenant(s: Stream, tenantID: string): Stream {
    Stream(tenantID, s.namespace, s.name, true)
  }

  /** The fields that make up an identity, in order. */
  function Segments(s: Stream): seq<string> {
    (if s.isMultiTenant then [s.tenantID] else []) + [s.namespace, s.name]
  }

  /** Stream.ID. */
  function ID(s: Stream): Result<string, Error> {
    if s.namespace == "" then Err(MissingNamespace)
    else if s.name == "" then Err(MissingName)
    else if s.isMultiTenant && s.tenantID == "" then Err(MissingTenantID)
    else Ok(Join(Segments(s), ':'))
  }

  /** When a stream has no identity, and what the identity reads otherwise. */
  lemma {:induction false} IDExactly(s: Stream)
    ensures ID(s).Err? <==> s.namespace == "" || s.name == "" || (s.isMultiTenant && s.tenantID == "")
    ensures s.isMultiTenant && s.tenantID == "" && s.namespace != "" && s.name != "" ==> ID(s) == Err(MissingTenantID)
    ensures ID(s).Ok? ==> ID(s).value == if s.isMultiTenant then s.tenantID + ":" + s.namespace + ":" + s.name
                                         else s.namespace + ":" + s.name
  {
    JoinThree(s.tenantID, s.namespace, s.name);
    assert [s.namespace, s.name][1..] == [s.name];
    assert Join([s.namespace, s.name], ':') == s.namespace + ":" + s.name;
    assert Segments(s) == if s.isMultiTenant then [s.tenantID, s.namespace, s.name] else [s.namespace, s.name];
  }

  predicate ColonFree(s: Stream) {
    forall k :: 0 <= k < |Segments(s)| ==> Free(Segments(s)[k], ':')
  }

  /** The same identity, field by field. A tenant counts only on multi-tenant streams. */
  predicate SameTarget(a: Stream, b: Stream) {
    a.isMultiTenant == b.isMultiTenant && a.namespace == b.namespace && a.name == b.name
    && (a.isMultiTenant ==> a.tenantID == b.tenantID)
  }

  /** Two identities are equal exactly when their colon-separated pieces are. */
  lemma {:induction false} IDCollision(a: Stream, b: Stream)
    requires ID(a).Ok? && ID(b).Ok?
    ensures ID(a) == ID(b) <==> SplitAll(Segments(a), ':') == SplitAll(Segments(b), ':')
  {
    SplitJoin(Segments(a), ':');
    SplitJoin(Segments(b), ':');
    JoinSplit(Join(Segments(a), ':'), ':');
    JoinSplit(Join(Segments(b), ':'), ':');
  }

  /** Without colons in the fields an identity names one stream. */
  lemma {:induction false} IDInjective(a: Stream, b: Stream)
    requires ID(a).Ok? && ID(b).Ok? && ColonFree(a) && ColonFree(b)
    ensures ID(a) == ID(b) <==> SameTarget(a, b)
  {
    IDCollision(a, b);
    SplitAllFree(Segments(a), ':');
    SplitAllFree(Segments(b), ':');
    if Segments(a) == Segments(b) {
      var n := |Segments(a)|;
      assert Segments(a)[n - 1] == a.name && Segments(b)[n - 1] == b.name;
      assert Segments(a)[n - 2] == a.namespace && Segments(b)[n - 2] == b.namespace;
      assert a.isMultiTenant ==> Segments(a)[0] == a.tenantID && Segments(b)[0] == b.tenantID;
    }
  }

  /** With a colon the identities of two tenants' streams can coincide. */
  lemma {:induction false} ColonsCollide()
    ensures var a, b := Stream("t", "n:s", "x", true), Stream("t:n", "s", "x", true);
            ID(a).Ok? && ID(a) == ID(b) && !SameTarget(a, b)
  {
    var a, b := Stream("t", "n:s", "x", true), Stream("t:n", "s", "x", true);
    JoinThree("t", "n:s", "x");
    JoinThree("t:n", "s", "x");
    assert Segments(a) == ["t", "n:s", "x"] && Segments(b) == ["t:n", "s", "x"];
    assert "t" + ":" + "n:s" + ":" + "x" == "t:n" + ":" + "s" + ":" + "x";
  }

  lemma {:induction false} JoinThree(a: string, b: string, c: string)
    ensures Join([a, b, c], ':') == a + ":" + b + ":" + c
  {
    assert [a, b, c][1..] == [b, c] && [b, c][1..] == [c];
    assert Join([b, c], ':') == b + ":" + c;
  }

  // ---------- Scopes ----------

  datatype Scope = Scope(tenantID: string, namespace: string, namePrefix: string)

  function ValidateScope(s: Scope): Result<(), Error> {
    if s.tenantID == "" && s.namespace == "" && s.namePrefix == "" then Err(InvalidScope)
    else if s.namePrefix != "" && s.namespace == "" then Err(InvalidScope)
    else Ok(())
  }

  /** The scope's complete segments. */
  function FullSegments(s: Scope): seq<string> {
    (if s.tenantID != "" then [s.tenantID] else []) + (if s.namespace != "" then [s.namespace] else [])
  }

  /** Each segment closed by a colon. */
  function Closed(segments: seq<string>): string {
    if segments == [] then "" else segments[0] + ":" + Closed(segments[1..])
  }

  /** s2ScopePrefix, built step by step. */
  method S2ScopePrefix(s: Scope) returns (out: string)
    ensures out == Closed(FullSegments(s)) + s.namePrefix
  {
    out := "";
    if s.tenantID != "" {
      out := out + s.tenantID + ":";
    }
    if s.namespace != "" {
      out := out + s.namespace + ":";
    }
    if s.namePrefix != "" {
      out := out + s.namePrefix;
    }
    ClosedOf(s);
  }

  lemma {:induction false} ClosedOf(s: Scope)
    ensures Closed(FullSegments(s)) == (if s.tenantID != "" then s.tenantID + ":" else "")
                                     + (if s.namespace != "" then s.namespace + ":" else "")
  {
    var full := FullSegments(s);
    assert |full| > 0 ==> Closed(full) == full[0] + ":" + Closed(full[1..]);
    assert |full| == 2 ==> full[1..] == [s.namespace];
    assert Closed([s.namespace]) == s.namespace + ":" + Closed([s.namespace][1..]);
  }

  predicate ScopeColonFree(s: Scope) {
    Free(s.tenantID, ':') && Free(s.namespace, ':') && Free(s.namePrefix, ':')
  }

  lemma {:induction false} PartialSegment(np: string, segments: seq<string>)
    requires segments != [] && Free(np, ':') && Free(segments[0], ':')
    ensures np <= Join(segments, ':') <==> np <= segments[0]
  {
    var id := Join(segments, ':');
    var n := |segments[0]|;
    assert segments[0] <= id;
    assert |segments| > 1 ==> id[n] == ':';
    assert n < |np| ==> np[n] != ':';
  }

  lemma {:induction false} FirstSegment(f: string, rest: string, g: string, tail: string)
    requires Free(f, ':') && Free(g, ':')
    ensures f + ":" + rest <= g + ":" + tail <==> f == g && rest <= tail
  {
    var x, y := f + ":" + rest, g + ":" + tail;
    assert x[|f|] == ':' && y[|g|] == ':';
    assert |f| < |g| ==> y[|f|] == g[|f|] && g[|f|] != ':';
    assert |g| < |f| ==> x[|g|] == f[|g|] && f[|g|] != ':';
    if x <= y {
      assert x[|f|] == y[|f|];
      assert f == x[..|f|] && g == y[..|g|];
      assert rest == x[|f| + 1..] && tail == y[|g| + 1..];
    }
    if f == g && rest <= tail {
      assert forall k :: 0 <= k < |x| ==> x[k] == y[k];
    }
  }

  /** A string prefix of an identity is a segment-level prefix. */
  lemma {:induction false} PrefixIsSegmentwise(full: seq<string>, np: string, segments: seq<string>)
    requires segments != [] && Free(np, ':')
    requires forall k :: 0 <= k < |full| ==> Free(full[k], ':')
    requires forall k :: 0 <= k < |segments| ==> Free(segments[k], ':')
    ensures Closed(full) + np <= Join(segments, ':')
       <==> |full| < |segments| && segments[..|full|] == full && np <= segments[|full|]
  {
    var prefix, id := Closed(full) + np, Join(segments, ':');
    if full == [] {
      assert prefix == np;
      PartialSegment(np, segments);
    } else {
      var rest := Closed(full[1..]) + np;
      assert prefix == full[0] + ":" + rest;
      if |segments| == 1 {
        assert prefix[|full[0]|] == ':';
        assert |full[0]| < |id| ==> id[|full[0]|] != ':';
      } else {
        FirstSegment(full[0], rest, segments[0], Join(segments[1..], ':'));
        PrefixIsSegmentwise(full[1..], np, segments[1..]);
        if full[0] == segments[0] {
          if |full| < |segments| {
            assert segments[..|full|] == [segments[0]] + segments[1..][..|full| - 1];
            assert segments[..|full|][1..] == segments[1..][..|full| - 1];
            assert full == [full[0]] + full[1..];
          }
        }
      }
    }
  }

  /** What a scope is meant to cover. Without a tenant it means global streams. */
  predicate Member(scope: Scope, s: Stream) {
    && (if scope.tenantID != "" then s.isMultiTenant && s.tenantID == scope.tenantID else !s.isMultiTenant)
    && (scope.namespace != "" ==> s.namespace == scope.namespace)
    && scope.namePrefix <= s.name
  }

  /** What a scope covers besides: a tenant scope on a global stream whose namespace
      equals the tenant, a namespace scope on a tenant of that name. */
  predicate Confused(scope: Scope, s: Stream) {
    || (scope.tenantID != "" && scope.namespace == "" && !s.isMultiTenant && s.namespace == scope.tenantID)
    || (scope.tenantID == "" && s.isMultiTenant && s.tenantID == scope.namespace && scope.namePrefix <= s.namespace)
  }

  /** Exactly which streams the prefix of a valid scope matches. */
  lemma {:induction false} ScopeCovers(scope: Scope, s: Stream)
    requires ValidateScope(scope).Ok? && ID(s).Ok? && ScopeColonFree(scope) && ColonFree(s)
    ensures Closed(FullSegments(scope)) + scope.namePrefix <= ID(s).value <==> Member(scope, s) || Confused(scope, s)
  {
    var full, segments := FullSegments(scope), Segments(s);
    PrefixIsSegmentwise(full, scope.namePrefix, segments);
    if |full| < |segments| {
      assert |full| == 1 ==> (segments[..1] == full <==> segments[0] == full[0]);
      assert |full| == 2 ==> (segments[..2] == full <==> segments[0] == full[0] && segments[1] == full[1]);
    }
  }

  /** Where a tenant is named like a namespace, the scope of either matches a stream of the
      other. */
  lemma {:induction false} TenantMeetsNamespace(shared: string, other: string, name: string)
    requires shared != "" && other != "" && name != ""
    requires Free(shared, ':') && Free(other, ':') && Free(name, ':')
    ensures var tenantScope, global := Scope(shared, "", ""), Stream("", shared, name, false);
            && ValidateScope(tenantScope).Ok? && ID(global).Ok? && !Member(tenantScope, global)
            && Closed(FullSegments(tenantScope)) + "" <= ID(global).value
    ensures var namespaceScope, tenants := Scope("", shared, ""), Stream(shared, other, name, true);
            && ValidateScope(namespaceScope).Ok? && ID(tenants).Ok? && !Member(namespaceScope, tenants)
            && Closed(FullSegments(namespaceScope)) + "" <= ID(tenants).value
  {
    ScopeCovers(Scope(shared, "", ""), Stream("", shared, name, false));
    ScopeCovers(Scope("", shared, ""), Stream(shared, other, name, true));
  }

  /** When no tenant is named like a namespace, a scope covers its members and no more. */
  lemma {:induction false} ScopeIsMembership(scope: Scope, s: Stream, tenants: set<string>, namespaces: set<string>)
    requires ValidateScope(scope).Ok? && ID(s).Ok? && ScopeColonFree(scope) && ColonFree(s)
    requires tenants !! namespaces
    requires s.namespace in namespaces && (s.isMultiTenant ==> s.tenantID in tenants)
    requires scope.tenantID == "" || scope.tenantID in tenants
    requires scope.namespace == "" || scope.namespace in namespaces
    ensures Closed(FullSegments(scope)) + scope.namePrefix <= ID(s).value <==> Member(scope, s)
  {
    ScopeCovers(scope, s);
  }

  // ---------- Access requests ----------

  datatype Role = NoAccess | Read | Write | ReadWrite

  const MINUTE: int := 60_000_000_000
  const MIN_EXPIRY: int := MINUTE
  const MAX_EXPIRY: int := 24 * 60 * MINUTE
  const DEFAULT_EXPIRY: int := 60 * MINUTE

  function NormalizeExpiry(d: int): Result<int, Error> {
    if d == 0 then Ok(DEFAULT_EXPIRY)
    else if d < MIN_EXPIRY then Err(ExpiryTooShort)
    else if d > MAX_EXPIRY then Err(ExpiryTooLong)
    else Ok(d)
  }

  datatype Request = Request(stream: Stream, scope: Option<Scope>, access: Role, expiry: int)

  function Validate(r: Request): Result<(), Error> {
    if r.access.NoAccess? then Err(InvalidAccessRole)
    else if NormalizeExpiry(r.expiry).Err? then Err(NormalizeExpiry(r.expiry).error)
    else if r.scope.Some? && r.stream != Stream("", "", "", false) then Err(InvalidScope)
    else if r.scope.Some? then ValidateScope(r.scope.value)
    else if ID(r.stream).Err? then Err(ID(r.stream).error)
    else Ok(())
  }

  /** What Validate accepts: a named role, a lifetime of zero or between a minute and a day,
      and exactly one target that is well-formed. */
  lemma {:induction false} ValidateExactly(r: Request)
    ensures Validate(r).Ok? <==>
            && (r.access.Read? || r.access.Write? || r.access.ReadWrite?)
            && (r.expiry == 0 || 60_000_000_000 <= r.expiry <= 86_400_000_000_000)
            && (match r.scope
                case None => r.stream.namespace != "" && r.stream.name != "" && (r.stream.isMultiTenant ==> r.stream.tenantID != "")
                case Some(scope) =>
                  && r.stream == Stream("", "", "", false)
                  && (scope.namespace != "" || (scope.tenantID != "" && scope.namePrefix == "")))
  {
    IDExactly(r.stream);
  }

  datatype ResourceSet = Exact(id: string) | Prefix(prefix: string)

  predicate Covers(set': ResourceSet, id: string) {
    match set'
    case Exact(x) => id == x
    case Prefix(p) => p <= id
  }

  /** s2StreamMatcher. */
  method S2StreamMatcher(r: Request) returns (m: Result<ResourceSet, Error>)
    ensures m == Matcher(r)
  {
    if r.scope.None? {
      var id := ID(r.stream);
      return if id.Err? then Err(id.error) else Ok(Exact(id.value));
    }
    var prefix := S2ScopePrefix(r.scope.value);
    m := Ok(Prefix(prefix));
  }

  function Matcher(r: Request): Result<ResourceSet, Error> {
    match r.scope
    case None => if ID(r.stream).Err? then Err(ID(r.stream).error) else Ok(Exact(ID(r.stream).value))
    case Some(scope) => Ok(Prefix(Closed(FullSegments(scope)) + scope.namePrefix))
  }

  /** A validated request always has a matcher, and a lifetime as asked for, an hour when
      none was; the token covers exactly the requested stream, or exactly what its scope
      covers. */
  lemma {:induction false} GrantIsAsRequested(r: Request, s: Stream)
    requires Validate(r).Ok? && ID(s).Ok? && ColonFree(s)
    requires r.scope.None? ==> ColonFree(r.stream)
    requires r.scope.Some? ==> ScopeColonFree(r.scope.value)
    ensures NormalizeExpiry(r.expiry) == Ok(if r.expiry == 0 then 3_600_000_000_000 else r.expiry)
    ensures 60_000_000_000 <= NormalizeExpiry(r.expiry).value <= 86_400_000_000_000
    ensures Matcher(r).Ok?
    ensures r.scope.None? ==> (Covers(Matcher(r).value, ID(s).value) <==> SameTarget(s, r.stream))
    ensures r.scope.Some? ==> (Covers(Matcher(r).value, ID(s).value) <==> Member(r.scope.value, s) || Confused(r.scope.value, s))
  {
    match r.scope
    case None => IDInjective(s, r.stream);
    case Some(scope) => ScopeCovers(scope, s);
  }
}
