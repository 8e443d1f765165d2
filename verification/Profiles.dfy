/** Credential profiles kept in a keychain (cloud/keychain_store.go, keychain_resolver.go,
    keychain_options.go). The keychain is a map whose calls may fail and then change
    nothing, which is what the file provider guarantees. */
module Profiles {
  import opened Outcomes
  import K = FileKeychain
  import Text

  type Secrets = map<string, string>

  const FIELD_API_KEY := "api_key"
  const FIELD_TOKEN := "token"
  const FIELD_REFRESH_TOKEN := "refresh_token"
  const FIELD_TENANT_DOMAIN := "tenant_domain"

  const DEFAULT_APP_NAME := "safedep"
  const DEFAULT_PROFILE := "default"

  datatype CredentialType = Unspecified | APIKey | Token

  datatype Credentials =
    | APIKeyCredential(apiKey: string, tenantDomain: string)
    | TokenCredential(token: string, refreshToken: string, tenantDomain: string)

  datatype Error = MissingCredentials | InvalidCredentialType | KeychainFailed

  // ---------- Configuration ----------

  datatype KeychainOption =
    | AppName(name: string)
    | Profile(profile: string)
    | KeychainHandle
    | InsecureFileFallback
    | InsecureFileFallbackPath(path: string)

  datatype Config = Config(appName: string, profile: string, hasHandle: bool, fallback: bool, fallbackPath: string)

  function Apply(cfg: Config, opt: KeychainOption): Config {
    match opt
    case AppName(name) => cfg.(appName := name)
    case Profile(profile) => cfg.(profile := if Text.All(profile, Text.IsSpace) then DEFAULT_PROFILE else profile)
    case KeychainHandle => cfg.(hasHandle := true)
    case InsecureFileFallback => cfg.(fallback := true)
    case InsecureFileFallbackPath(path) => cfg.(fallback := true, fallbackPath := path)
  }

  /** The configuration after the first n options. */
  function Configured(opts: seq<KeychainOption>, n: nat): Config
    requires n <= |opts|
  {
    if n == 0 then Config(DEFAULT_APP_NAME, DEFAULT_PROFILE, false, false, "")
    else Apply(Configured(opts, n - 1), opts[n - 1])
  }

  /** buildKeychainConfig runs the options in order. */
  method BuildKeychainConfig(opts: seq<KeychainOption>) returns (cfg: Config)
    ensures cfg == Configured(opts, |opts|)
    ensures cfg.fallback <==> exists k :: 0 <= k < |opts| && (opts[k].InsecureFileFallback? || opts[k].InsecureFileFallbackPath?)
    ensures cfg.hasHandle <==> exists k :: 0 <= k < |opts| && opts[k].KeychainHandle?
    ensures Text.TrimSpace(cfg.profile) != ""
    ensures opts == [] ==> cfg == Config("safedep", "default", false, false, "")
  {
    FlagsAreAskedFor(opts, |opts|);
    ProfileNeverBlank(opts, |opts|);
    cfg := Config(DEFAULT_APP_NAME, DEFAULT_PROFILE, false, false, "");
    for n := 0 to |opts|
      invariant cfg == Configured(opts, n)
    {
      cfg := Apply(cfg, opts[n]);
    }
  }

  /** Plaintext storage is on, and a keychain injected, exactly when some option asks. */
  lemma {:induction false} FlagsAreAskedFor(opts: seq<KeychainOption>, n: nat)
    requires n <= |opts|
    ensures Configured(opts, n).fallback <==>
            exists k :: 0 <= k < n && (opts[k].InsecureFileFallback? || opts[k].InsecureFileFallbackPath?)
    ensures Configured(opts, n).hasHandle <==> exists k :: 0 <= k < n && opts[k].KeychainHandle?
  {
    if n > 0 { FlagsAreAskedFor(opts, n - 1); }
  }

  /** The last application name decides; without one it is the shared name. */
  lemma {:induction false} LastAppNameWins(opts: seq<KeychainOption>, n: nat)
    requires n <= |opts|
    ensures (forall l :: 0 <= l < n ==> !opts[l].AppName?) ==> Configured(opts, n).appName == "safedep"
    ensures forall k :: 0 <= k < n && opts[k].AppName? && (forall l :: k < l < n ==> !opts[l].AppName?) ==>
                          Configured(opts, n).appName == opts[k].name
  {
    if n > 0 { LastAppNameWins(opts, n - 1); }
  }

  /** The last file path decides; without one it is empty. */
  lemma {:induction false} LastPathWins(opts: seq<KeychainOption>, n: nat)
    requires n <= |opts|
    ensures (forall l :: 0 <= l < n ==> !opts[l].InsecureFileFallbackPath?) ==> Configured(opts, n).fallbackPath == ""
    ensures forall k :: 0 <= k < n && opts[k].InsecureFileFallbackPath? && (forall l :: k < l < n ==> !opts[l].InsecureFileFallbackPath?) ==>
                          Configured(opts, n).fallbackPath == opts[k].path
  {
    if n > 0 { LastPathWins(opts, n - 1); }
  }

  /** The last profile option decides the profile, whatever other options follow; one
      that TrimSpace would empty means the default. */
  lemma {:induction false} LastProfileWins(opts: seq<KeychainOption>, n: nat, k: nat)
    requires k < n <= |opts| && opts[k].Profile? && forall l :: k < l < n ==> !opts[l].Profile?
    ensures Configured(opts, n).profile == if Text.TrimSpace(opts[k].profile) == "" then "default" else opts[k].profile
  {
    LastProfileStays(opts, n, k);
    var profile := opts[k].profile;
    Text.BlankIsTrimmedAway(profile);
  }

  lemma {:induction false} LastProfileStays(opts: seq<KeychainOption>, n: nat, k: nat)
    requires k < n <= |opts| && opts[k].Profile? && forall l :: k < l < n ==> !opts[l].Profile?
    ensures Configured(opts, n).profile == if Text.All(opts[k].profile, Text.IsSpace) then DEFAULT_PROFILE else opts[k].profile
  {
    if k < n - 1 {
      LastProfileStays(opts, n - 1, k);
    }
  }

  /** The profile is never one that TrimSpace would empty. */
  lemma {:induction false} ProfileNeverBlank(opts: seq<KeychainOption>, n: nat)
    requires n <= |opts|
    ensures Text.TrimSpace(Configured(opts, n).profile) != ""
  {
    NeverBlank(opts, n);
    Text.BlankIsTrimmedAway(Configured(opts, n).profile);
  }

  lemma {:induction false} NeverBlank(opts: seq<KeychainOption>, n: nat)
    requires n <= |opts|
    ensures !Text.All(Configured(opts, n).profile, Text.IsSpace)
    ensures (forall k :: 0 <= k < n ==> !opts[k].Profile?) ==> Configured(opts, n).profile == DEFAULT_PROFILE
  {
    DefaultIsNotBlank();
    if n > 0 {
      NeverBlank(opts, n - 1);
    }
  }

  lemma DefaultIsNotBlank()
    ensures !Text.All(DEFAULT_PROFILE, Text.IsSpace)
  {
    assert !Text.IsSpace(DEFAULT_PROFILE[0]);
  }

  // ---------- Keys ----------

  function KeyForField(profile: string, field: string): string {
    profile + "/" + field
  }

  /** Two keys meet only for the same profile and field: the last slash is the separator,
      whatever slashes the profile holds. */
  lemma {:induction false} KeyInjective(p: string, f: string, q: string, g: string)
    requires '/' !in f && '/' !in g
    ensures KeyForField(p, f) == KeyForField(q, g) <==> p == q && f == g
  {
    if KeyForField(p, f) == KeyForField(q, g) {
      LastSlash(p, f);
      LastSlash(q, g);
    }
  }

  /** The profile and the field can be read back from the key. */
  lemma {:induction false} LastSlash(p: string, f: string)
    requires '/' !in f
    ensures var key := KeyForField(p, f);
            && |p| < |key| && key[|p|] == '/' && key[..|p|] == p && key[|p| + 1..] == f
            && forall k :: |p| < k < |key| ==> key[k] != '/'
  {
    var key := KeyForField(p, f);
    assert key[|p| + 1..] == f;
    forall k | |p| < k < |key| ensures key[k] != '/' {
      assert key[k] == f[k - |p| - 1];
    }
  }

  /** The keys of a profile. */
  lemma KeysOf(profile: string)
    ensures KeyForField(profile, FIELD_API_KEY) == profile + "/" + "api_key"
    ensures KeyForField(profile, FIELD_TOKEN) == profile + "/" + "token"
    ensures KeyForField(profile, FIELD_REFRESH_TOKEN) == profile + "/" + "refresh_token"
    ensures KeyForField(profile, FIELD_TENANT_DOMAIN) == profile + "/" + "tenant_domain"
  {
  }

  /** With a slash in a field name the profiles would mix. */
  lemma SlashInFieldCollides()
    ensures KeyForField("a", "b/token") == KeyForField("a/b", "token") == "a/b/token"
  {
  }

  // ---------- Saves and clears ----------

  datatype Op =
    | SaveAPIKey(profile: string, apiKey: string, tenantDomain: string)
    | SaveToken(profile: string, token: string, refreshToken: string, tenantDomain: string)
    | Clear(profile: string)

  datatype FieldWrite = Put(field: string, value: string) | Drop(field: string)

  predicate Accepts(op: Op) {
    match op
    case SaveAPIKey(_, apiKey, tenantDomain) => apiKey != "" && tenantDomain != ""
    case SaveToken(_, token, _, tenantDomain) => token != "" && tenantDomain != ""
    case Clear(_) => true
  }

  /** The keychain calls an operation makes, in order. */
  function Writes(op: Op): seq<FieldWrite> {
    if !Accepts(op) then []
    else
      match op
      case SaveAPIKey(_, apiKey, tenantDomain) =>
        [Put(FIELD_API_KEY, apiKey), Put(FIELD_TENANT_DOMAIN, tenantDomain)]
      case SaveToken(_, token, refreshToken, tenantDomain) =>
        [Put(FIELD_TOKEN, token), Put(FIELD_REFRESH_TOKEN, refreshToken), Put(FIELD_TENANT_DOMAIN, tenantDomain)]
      case Clear(_) =>
        [Drop(FIELD_API_KEY), Drop(FIELD_TOKEN), Drop(FIELD_REFRESH_TOKEN), Drop(FIELD_TENANT_DOMAIN)]
  }

  function WriteOne(s: Secrets, profile: string, w: FieldWrite): Secrets {
    match w
    case Put(field, value) => s[KeyForField(profile, field) := value]
    case Drop(field) => s - {KeyForField(profile, field)}
  }

  /** The first n writes. */
  function WriteAll(s: Secrets, profile: string, ws: seq<FieldWrite>, n: nat): Secrets
    requires n <= |ws|
  {
    if n == 0 then s else WriteOne(WriteAll(s, profile, ws, n - 1), profile, ws[n - 1])
  }

  /** An operation and how many of its keychain calls took effect before one failed. */
  datatype Call = Call(op: Op, done: nat)

  predicate Complete(c: Call) {
    c.done == |Writes(c.op)|
  }

  predicate WellFormed(run: seq<Call>) {
    forall k :: 0 <= k < |run| ==> run[k].done <= |Writes(run[k].op)|
  }

  /** The keychain after the first n calls of a run that starts empty. */
  function Play(run: seq<Call>, n: nat): Secrets
    requires n <= |run| && WellFormed(run)
  {
    if n == 0 then map[]
    else WriteAll(Play(run, n - 1), run[n - 1].op.profile, Writes(run[n - 1].op), run[n - 1].done)
  }

  // ---------- Resolving ----------

  function GetField(s: Secrets, profile: string, field: string): Result<string, Error> {
    var key := KeyForField(profile, field);
    if key in s then Ok(s[key]) else Err(MissingCredentials)
  }

  function Resolved(s: Secrets, profile: string, credType: CredentialType): Result<Credentials, Error> {
    var tenantDomain := GetField(s, profile, FIELD_TENANT_DOMAIN);
    match credType
    case Unspecified => Err(InvalidCredentialType)
    case APIKey =>
      var apiKey := GetField(s, profile, FIELD_API_KEY);
      if apiKey.Err? then Err(apiKey.error)
      else if tenantDomain.Err? then Err(tenantDomain.error)
      else if apiKey.value == "" then Err(MissingCredentials)
      else Ok(APIKeyCredential(apiKey.value, tenantDomain.value))
    case Token =>
      var token := GetField(s, profile, FIELD_TOKEN);
      var refresh := GetField(s, profile, FIELD_REFRESH_TOKEN);
      if token.Err? then Err(token.error)
      else if tenantDomain.Err? then Err(tenantDomain.error)
      else if token.value == "" then Err(MissingCredentials)
      else Ok(TokenCredential(token.value, if refresh.Ok? then refresh.value else "", tenantDomain.value))
  }

  // ---------- One field through a run ----------

  predicate OurField(field: string) {
    field in {FIELD_API_KEY, FIELD_TOKEN, FIELD_REFRESH_TOKEN, FIELD_TENANT_DOMAIN}
  }

  function Lookup(s: Secrets, profile: string, field: string): Option<string> {
    if KeyForField(profile, field) in s then Some(s[KeyForField(profile, field)]) else None
  }

  /** What a complete operation leaves in a field: None when it leaves it alone. */
  function Leaves(op: Op, field: string): Option<Option<string>> {
    if !Accepts(op) then None
    else
      match op
      case SaveAPIKey(_, apiKey, tenantDomain) =>
        if field == FIELD_API_KEY then Some(Some(apiKey))
        else if field == FIELD_TENANT_DOMAIN then Some(Some(tenantDomain))
        else None
      case SaveToken(_, token, refreshToken, tenantDomain) =>
        if field == FIELD_TOKEN then Some(Some(token))
        else if field == FIELD_REFRESH_TOKEN then Some(Some(refreshToken))
        else if field == FIELD_TENANT_DOMAIN then Some(Some(tenantDomain))
        else None
      case Clear(_) => if OurField(field) then Some(None) else None
  }

  function Effect(w: FieldWrite): Option<string> {
    if w.Put? then Some(w.value) else None
  }

  lemma FieldNamesHaveNoSlash(f: string)
    requires OurField(f)
    ensures '/' !in f
  {
  }

  lemma WritesOurFields(op: Op)
    ensures forall k :: 0 <= k < |Writes(op)| ==> OurField(Writes(op)[k].field)
  {
  }

  /** Each field is written at most once by an operation. */
  lemma WritesAreDistinct(op: Op)
    ensures forall i, j :: 0 <= i < j < |Writes(op)| ==> Writes(op)[i].field != Writes(op)[j].field
  {
    assert |FIELD_API_KEY| == 7 && |FIELD_TOKEN| == 5;
    assert FIELD_REFRESH_TOKEN[0] == 'r' && FIELD_TENANT_DOMAIN[0] == 't';
  }

  lemma WritesLeave(op: Op, field: string)
    requires OurField(field)
    ensures Leaves(op, field).Some? ==> exists k :: 0 <= k < |Writes(op)| && Writes(op)[k].field == field
    ensures forall k :: 0 <= k < |Writes(op)| && Writes(op)[k].field == field ==> Leaves(op, field) == Some(Effect(Writes(op)[k]))
  {
    LeavesApart();
    var ws := Writes(op);
    if Leaves(op, field).Some? {
      var k :=
        if field == FIELD_API_KEY then 0
        else if field == FIELD_TENANT_DOMAIN then |ws| - 1
        else (if op.Clear? then 1 else 0) + (if field == FIELD_TOKEN then 0 else 1);
      assert 0 <= k < |ws| && ws[k].field == field;
    }
  }

  lemma {:induction false} OneWrite(s: Secrets, p: string, w: FieldWrite, q: string, field: string)
    requires OurField(w.field) && OurField(field)
    ensures Lookup(WriteOne(s, p, w), q, field) ==
            if p == q && w.field == field then Effect(w) else Lookup(s, q, field)
  {
    FieldNamesHaveNoSlash(w.field);
    FieldNamesHaveNoSlash(field);
    KeyInjective(p, w.field, q, field);
  }

  lemma {:induction false} Untouched(s: Secrets, p: string, ws: seq<FieldWrite>, n: nat, q: string, field: string)
    requires n <= |ws| && OurField(field) && forall k :: 0 <= k < n ==> OurField(ws[k].field)
    requires p == q ==> forall k :: 0 <= k < n ==> ws[k].field != field
    ensures Lookup(WriteAll(s, p, ws, n), q, field) == Lookup(s, q, field)
  {
    if n > 0 {
      Untouched(s, p, ws, n - 1, q, field);
      OneWrite(WriteAll(s, p, ws, n - 1), p, ws[n - 1], q, field);
    }
  }

  lemma {:induction false} Written(s: Secrets, p: string, ws: seq<FieldWrite>, n: nat, i: nat)
    requires i < n <= |ws| && forall k :: 0 <= k < |ws| ==> OurField(ws[k].field)
    requires forall k :: 0 <= k < |ws| && k != i ==> ws[k].field != ws[i].field
    ensures Lookup(WriteAll(s, p, ws, n), p, ws[i].field) == Effect(ws[i])
  {
    OneWrite(WriteAll(s, p, ws, n - 1), p, ws[n - 1], p, ws[i].field);
    if i < n - 1 {
      Written(s, p, ws, n - 1, i);
    }
  }

  /** One call seen through one field of one profile. */
  lemma {:induction false} CallOnField(s: Secrets, c: Call, q: string, field: string)
    requires OurField(field) && c.done <= |Writes(c.op)|
    ensures var after := Lookup(WriteAll(s, c.op.profile, Writes(c.op), c.done), q, field);
            && (c.op.profile != q || Leaves(c.op, field).None? ==> after == Lookup(s, q, field))
            && (c.op.profile == q && Leaves(c.op, field).Some? && Complete(c) ==> after == Leaves(c.op, field).value)
  {
    var ws := Writes(c.op);
    WritesOurFields(c.op);
    WritesLeave(c.op, field);
    if c.op.profile != q || Leaves(c.op, field).None? {
      Untouched(s, c.op.profile, ws, c.done, q, field);
    } else if Complete(c) {
      var i :| 0 <= i < |ws| && ws[i].field == field;
      WritesAreDistinct(c.op);
      Written(s, q, ws, c.done, i);
    }
  }

  // ---------- What every run guarantees ----------

  /** No operation on one profile, complete or failed halfway, changes what another
      profile resolves to. */
  lemma {:induction false} ProfilesAreIsolated(s: Secrets, c: Call, q: string, credType: CredentialType)
    requires c.done <= |Writes(c.op)| && c.op.profile != q
    ensures Resolved(WriteAll(s, c.op.profile, Writes(c.op), c.done), q, credType) == Resolved(s, q, credType)
  {
    CallOnField(s, c, q, FIELD_API_KEY);
    CallOnField(s, c, q, FIELD_TOKEN);
    CallOnField(s, c, q, FIELD_REFRESH_TOKEN);
    CallOnField(s, c, q, FIELD_TENANT_DOMAIN);
  }

  /** What the first n writes of an operation leave in a field of its profile. */
  lemma {:induction false} FieldAfter(s: Secrets, op: Op, n: nat, i: nat)
    requires i < |Writes(op)| && n <= |Writes(op)|
    ensures Lookup(WriteAll(s, op.profile, Writes(op), n), op.profile, Writes(op)[i].field) ==
            if i < n then Effect(Writes(op)[i]) else Lookup(s, op.profile, Writes(op)[i].field)
  {
    WritesOurFields(op);
    WritesAreDistinct(op);
    if i < n {
      Written(s, op.profile, Writes(op), n, i);
    } else {
      Untouched(s, op.profile, Writes(op), n, op.profile, Writes(op)[i].field);
    }
  }

  /** A key that was saved halfway resolves with the tenant of before, if there was one. */
  lemma {:induction false} KeySavedHalfway(s: Secrets, op: Op, n: nat)
    requires op.SaveAPIKey? && Accepts(op) && n <= 2
    ensures var tenant := Lookup(s, op.profile, FIELD_TENANT_DOMAIN);
            Resolved(WriteAll(s, op.profile, Writes(op), n), op.profile, APIKey) ==
            if n == 0 then Resolved(s, op.profile, APIKey)
            else if n == 2 then Ok(APIKeyCredential(op.apiKey, op.tenantDomain))
            else if tenant.Some? then Ok(APIKeyCredential(op.apiKey, tenant.value))
            else Err(MissingCredentials)
  {
    FieldAfter(s, op, n, 0);
    FieldAfter(s, op, n, 1);
  }

  /** A token saved halfway resolves with the refresh token and the tenant of before, as
      far as each was not yet written. */
  lemma {:induction false} TokenSavedHalfway(s: Secrets, op: Op, n: nat)
    requires op.SaveToken? && Accepts(op) && n <= 3
    ensures var refresh, tenant := Lookup(s, op.profile, FIELD_REFRESH_TOKEN), Lookup(s, op.profile, FIELD_TENANT_DOMAIN);
            Resolved(WriteAll(s, op.profile, Writes(op), n), op.profile, Token) ==
            if n == 0 then Resolved(s, op.profile, Token)
            else if n < 3 && tenant.None? then Err(MissingCredentials)
            else Ok(TokenCredential(
                      op.token,
                      if n >= 2 then op.refreshToken else if refresh.Some? then refresh.value else "",
                      if n == 3 then op.tenantDomain else tenant.value))
  {
    FieldAfter(s, op, n, 0);
    FieldAfter(s, op, n, 1);
    FieldAfter(s, op, n, 2);
  }

  /** A Clear that got past its first call leaves no API key, past its second no token;
      until then the token is as before. */
  lemma {:induction false} ClearedHalfway(s: Secrets, op: Op, n: nat)
    requires op.Clear? && 0 < n <= 4
    ensures var after := WriteAll(s, op.profile, Writes(op), n);
            && Resolved(after, op.profile, APIKey) == Err(MissingCredentials)
            && Resolved(after, op.profile, Token) == if n == 1 then Resolved(s, op.profile, Token) else Err(MissingCredentials)
  {
    FieldAfter(s, op, n, 0);
    FieldAfter(s, op, n, 1);
    FieldAfter(s, op, n, 2);
    FieldAfter(s, op, n, 3);
  }

  /** The last of the first n writes that sets or drops a field. */
  function WriteTo(ws: seq<FieldWrite>, n: nat, field: string): Option<FieldWrite>
    requires n <= |ws|
  {
    if n == 0 then None
    else if ws[n - 1].field == field then Some(ws[n - 1])
    else WriteTo(ws, n - 1, field)
  }

  /** What the last write to a field left there, among the writes that took effect in the
      first n calls. */
  function LastWrite(run: seq<Call>, n: nat, profile: string, field: string): Option<string>
    requires n <= |run| && WellFormed(run)
  {
    if n == 0 then None
    else
      var c := run[n - 1];
      var w := if c.op.profile == profile then WriteTo(Writes(c.op), c.done, field) else None;
      if w.Some? then Effect(w.value) else LastWrite(run, n - 1, profile, field)
  }

  lemma {:induction false} WritesHold(s: Secrets, p: string, ws: seq<FieldWrite>, n: nat, q: string, field: string)
    requires n <= |ws| && OurField(field) && forall k :: 0 <= k < |ws| ==> OurField(ws[k].field)
    ensures Lookup(WriteAll(s, p, ws, n), q, field) ==
            if p == q && WriteTo(ws, n, field).Some? then Effect(WriteTo(ws, n, field).value) else Lookup(s, q, field)
  {
    if n > 0 {
      WritesHold(s, p, ws, n - 1, q, field);
      OneWrite(WriteAll(s, p, ws, n - 1), p, ws[n - 1], q, field);
    }
  }

  /** Whatever failed halfway, a field holds the last write to it that took effect. */
  lemma {:induction false} FieldHoldsLastWrite(run: seq<Call>, n: nat, p: string, field: string)
    requires WellFormed(run) && n <= |run| && OurField(field)
    ensures Lookup(Play(run, n), p, field) == LastWrite(run, n, p, field)
  {
    if n > 0 {
      var c := run[n - 1];
      FieldHoldsLastWrite(run, n - 1, p, field);
      WritesOurFields(c.op);
      WritesHold(Play(run, n - 1), c.op.profile, Writes(c.op), c.done, p, field);
    }
  }

  /** So over every run, with any calls cut short anywhere, what a profile resolves to is
      decided by the last write to each of its fields. */
  lemma {:induction false} ResolvesLastWrites(run: seq<Call>, p: string)
    requires WellFormed(run)
    ensures Resolved(Play(run, |run|), p, Unspecified) == Err(InvalidCredentialType)
    ensures var n := |run|;
            var key, tenant := LastWrite(run, n, p, FIELD_API_KEY), LastWrite(run, n, p, FIELD_TENANT_DOMAIN);
            var token, refresh := LastWrite(run, n, p, FIELD_TOKEN), LastWrite(run, n, p, FIELD_REFRESH_TOKEN);
            && Resolved(Play(run, n), p, APIKey) ==
               (if key.None? || tenant.None? || key.value == "" then Err(MissingCredentials)
                else Ok(APIKeyCredential(key.value, tenant.value)))
            && Resolved(Play(run, n), p, Token) ==
               (if token.None? || tenant.None? || token.value == "" then Err(MissingCredentials)
                else Ok(TokenCredential(token.value, if refresh.Some? then refresh.value else "", tenant.value)))
  {
    FieldHoldsLastWrite(run, |run|, p, FIELD_API_KEY);
    FieldHoldsLastWrite(run, |run|, p, FIELD_TENANT_DOMAIN);
    FieldHoldsLastWrite(run, |run|, p, FIELD_TOKEN);
    FieldHoldsLastWrite(run, |run|, p, FIELD_REFRESH_TOKEN);
  }

  /** Call i is the last one on `profile` that decides `field`. */
  predicate Decides(run: seq<Call>, i: nat, profile: string, field: string) {
    && i < |run| && run[i].op.profile == profile && Leaves(run[i].op, field).Some?
    && forall k :: i < k < |run| && run[k].op.profile == profile ==> Leaves(run[k].op, field).None?
  }

  predicate CompleteOn(run: seq<Call>, profile: string) {
    WellFormed(run) && forall k :: 0 <= k < |run| && run[k].op.profile == profile ==> Complete(run[k])
  }

  lemma {:induction false} DecidedField(run: seq<Call>, n: nat, i: nat, p: string, field: string)
    requires OurField(field) && CompleteOn(run, p) && Decides(run, i, p, field) && i < n <= |run|
    ensures Lookup(Play(run, n), p, field) == Leaves(run[i].op, field).value
  {
    CallOnField(Play(run, n - 1), run[n - 1], p, field);
    if i < n - 1 {
      DecidedField(run, n - 1, i, p, field);
    }
  }

  lemma {:induction false} NeverWritten(run: seq<Call>, n: nat, p: string, field: string)
    requires OurField(field) && WellFormed(run) && n <= |run|
    requires forall k :: 0 <= k < n && run[k].op.profile == p ==> Leaves(run[k].op, field).None?
    ensures Lookup(Play(run, n), p, field) == None
  {
    if n > 0 {
      NeverWritten(run, n - 1, p, field);
      CallOnField(Play(run, n - 1), run[n - 1], p, field);
    }
  }

  predicate SavesKey(c: Call, p: string) { c.op.SaveAPIKey? && c.op.profile == p && Accepts(c.op) }
  predicate SavesToken(c: Call, p: string) { c.op.SaveToken? && c.op.profile == p && Accepts(c.op) }
  predicate Saves(c: Call, p: string) { SavesKey(c, p) || SavesToken(c, p) }
  predicate Clears(c: Call, p: string) { c.op.Clear? && c.op.profile == p }

  /** The last API key saved since the last Clear is resolved, with the tenant of the last
      save of either kind. */
  lemma {:induction false} ResolvesLastKey(run: seq<Call>, p: string, i: nat, j: nat)
    requires CompleteOn(run, p) && i <= j < |run| && SavesKey(run[i], p) && Saves(run[j], p)
    requires forall k :: i < k < |run| ==> !SavesKey(run[k], p) && !Clears(run[k], p)
    requires forall k :: j < k < |run| ==> !Saves(run[k], p)
    ensures Resolved(Play(run, |run|), p, APIKey) == Ok(APIKeyCredential(run[i].op.apiKey, run[j].op.tenantDomain))
  {
    LeavesApart();
    DecidedField(run, |run|, i, p, FIELD_API_KEY);
    DecidedField(run, |run|, j, p, FIELD_TENANT_DOMAIN);
  }

  lemma {:induction false} ResolvesLastToken(run: seq<Call>, p: string, i: nat, j: nat)
    requires CompleteOn(run, p) && i <= j < |run| && SavesToken(run[i], p) && Saves(run[j], p)
    requires forall k :: i < k < |run| ==> !SavesToken(run[k], p) && !Clears(run[k], p)
    requires forall k :: j < k < |run| ==> !Saves(run[k], p)
    ensures Resolved(Play(run, |run|), p, Token) ==
            Ok(TokenCredential(run[i].op.token, run[i].op.refreshToken, run[j].op.tenantDomain))
  {
    LeavesApart();
    DecidedField(run, |run|, i, p, FIELD_TOKEN);
    DecidedField(run, |run|, i, p, FIELD_REFRESH_TOKEN);
    DecidedField(run, |run|, j, p, FIELD_TENANT_DOMAIN);
  }

  lemma LeavesApart()
    ensures |FIELD_API_KEY| != |FIELD_TOKEN| && |FIELD_API_KEY| != |FIELD_REFRESH_TOKEN|
    ensures |FIELD_API_KEY| != |FIELD_TENANT_DOMAIN| && |FIELD_TOKEN| != |FIELD_REFRESH_TOKEN|
    ensures FIELD_REFRESH_TOKEN != FIELD_TENANT_DOMAIN && |FIELD_TOKEN| != |FIELD_TENANT_DOMAIN|
  {
    assert FIELD_REFRESH_TOKEN[0] != FIELD_TENANT_DOMAIN[0];
  }

  /** Nothing saved since the last Clear, or ever: the credentials are missing. */
  lemma {:induction false} ResolvesMissing(run: seq<Call>, p: string, from: nat)
    requires CompleteOn(run, p) && from <= |run|
    requires from == 0 || Clears(run[from - 1], p)
    requires forall k :: from <= k < |run| ==> !Clears(run[k], p)
    ensures (forall k :: from <= k < |run| ==> !SavesKey(run[k], p)) ==>
              Resolved(Play(run, |run|), p, APIKey) == Err(MissingCredentials)
    ensures (forall k :: from <= k < |run| ==> !SavesToken(run[k], p)) ==>
              Resolved(Play(run, |run|), p, Token) == Err(MissingCredentials)
  {
    LeavesApart();
    if forall k :: from <= k < |run| ==> !SavesKey(run[k], p) {
      MissingField(run, p, from, FIELD_API_KEY);
    }
    if forall k :: from <= k < |run| ==> !SavesToken(run[k], p) {
      MissingField(run, p, from, FIELD_TOKEN);
    }
  }

  lemma {:induction false} MissingField(run: seq<Call>, p: string, from: nat, field: string)
    requires OurField(field) && CompleteOn(run, p) && from <= |run|
    requires from == 0 || Clears(run[from - 1], p)
    requires forall k :: from <= k < |run| && run[k].op.profile == p ==> Leaves(run[k].op, field).None?
    ensures Lookup(Play(run, |run|), p, field) == None
  {
    if from == 0 {
      NeverWritten(run, |run|, p, field);
    } else {
      assert Decides(run, from - 1, p, field);
      DecidedField(run, |run|, from - 1, p, field);
    }
  }

  // ---------- The stores ----------

  /** The keychain as the provider below it stores it: no nulls. */
  function Stored(s: Secrets): K.Secrets {
    map key | key in s :: Some(s[key])
  }

  lemma StoredPut(s: Secrets, key: string, value: string)
    ensures Stored(s[key := value]) == Stored(s)[key := Some(value)]
  {
  }

  lemma StoredDrop(s: Secrets, key: string)
    ensures Stored(s - {key}) == Stored(s) - {key}
  {
  }

  class Keychain {
    var secrets: Secrets
    /** Calls that failed. */
    ghost var faults: nat

    constructor ()
      ensures secrets == map[] && faults == 0
    {
      secrets, faults := map[], 0;
    }

    method Fails() returns (b: bool)
      modifies this`faults
      ensures faults == old(faults) + if b then 1 else 0
    {
      b := *;
      faults := faults + if b then 1 else 0;
    }

    method Get(key: string) returns (r: K.Reply)
      modifies this`faults
      ensures K.Answers(Some(Stored(secrets)), K.Op.Get(key), r, Some(Stored(secrets))) && !r.Died? && !r.Success? && !r.Panics?
      ensures r.Value? ==> key in secrets && secrets[key] == r.value
      ensures r.NotFound? ==> key !in secrets
      ensures faults == old(faults) + if r.Failure? then 1 else 0
    {
      var fails := Fails();
      if fails { return K.Reply.Failure; }
      if key !in secrets { return K.Reply.NotFound; }
      r := K.Reply.Value(secrets[key]);
    }

    method Set(key: string, value: string) returns (r: K.Reply)
      modifies this
      ensures K.Answers(Some(Stored(old(secrets))), K.Op.Set(key, value), r, Some(Stored(secrets))) && (r.Success? || r.Failure?)
      ensures secrets == if r.Success? then old(secrets)[key := value] else old(secrets)
      ensures faults == old(faults) + if r.Failure? then 1 else 0
    {
      var fails := Fails();
      if fails { return K.Reply.Failure; }
      StoredPut(secrets, key, value);
      secrets := secrets[key := value];
      r := K.Reply.Success;
    }

    method Delete(key: string) returns (r: K.Reply)
      modifies this
      ensures K.Answers(Some(Stored(old(secrets))), K.Op.Delete(key), r, Some(Stored(secrets))) && (r.Success? || r.NotFound? || r.Failure?)
      ensures secrets == if r.Success? then old(secrets) - {key} else old(secrets)
      ensures r.NotFound? ==> key !in secrets
      ensures faults == old(faults) + if r.Failure? then 1 else 0
    {
      var fails := Fails();
      if fails { return K.Reply.Failure; }
      if key !in secrets { return K.Reply.NotFound; }
      StoredDrop(secrets, key);
      secrets := secrets - {key};
      r := K.Reply.Success;
    }
  }

  class CredentialStore {
    const profile: string
    const kc: Keychain

    constructor (cfg: Config, kc: Keychain)
      ensures this.profile == cfg.profile && this.kc == kc
    {
      profile := cfg.profile;
      this.kc := kc;
    }

    /** Successive Set calls for the first writes of an operation, stopping at an error. */
    method SetAll(ws: seq<FieldWrite>) returns (r: Result<(), Error>, ghost done: nat)
      requires forall k :: 0 <= k < |ws| ==> ws[k].Put?
      modifies kc
      ensures kc.faults >= old(kc.faults) && (r == Err(KeychainFailed) ==> kc.faults > old(kc.faults))
      ensures done <= |ws| && kc.secrets == WriteAll(old(kc.secrets), profile, ws, done)
      ensures if r.Ok? then done == |ws| else done < |ws| && r.error == KeychainFailed
    {
      done := 0;
      for n := 0 to |ws|
        invariant done == n && kc.secrets == WriteAll(old(kc.secrets), profile, ws, n) && kc.faults >= old(kc.faults)
      {
        var w := kc.Set(KeyForField(profile, ws[n].field), ws[n].value);
        if !w.Success? {
          return Err(KeychainFailed), done;
        }
        done := n + 1;
      }
      r := Ok(());
    }

    method SaveAPIKeyCredential(apiKey: string, tenantDomain: string) returns (r: Result<(), Error>, ghost done: nat)
      modifies kc
      ensures kc.faults >= old(kc.faults) && (r == Err(KeychainFailed) ==> kc.faults > old(kc.faults))
      ensures var op := SaveAPIKey(profile, apiKey, tenantDomain);
              && done <= |Writes(op)| && kc.secrets == WriteAll(old(kc.secrets), profile, Writes(op), done)
              && (r.Ok? ==> Accepts(op) && Complete(Call(op, done)))
              && (r == Err(MissingCredentials) <==> !Accepts(op))
      ensures r == Err(MissingCredentials) <==> apiKey == "" || tenantDomain == ""
      ensures r == Err(MissingCredentials) ==> kc.secrets == old(kc.secrets)
    {
      done := 0;
      if apiKey == "" { return Err(MissingCredentials), 0; }
      if tenantDomain == "" { return Err(MissingCredentials), 0; }
      r, done := SetAll([Put(FIELD_API_KEY, apiKey), Put(FIELD_TENANT_DOMAIN, tenantDomain)]);
    }

    method SaveTokenCredential(token: string, refreshToken: string, tenantDomain: string) returns (r: Result<(), Error>, ghost done: nat)
      modifies kc
      ensures kc.faults >= old(kc.faults) && (r == Err(KeychainFailed) ==> kc.faults > old(kc.faults))
      ensures var op := SaveToken(profile, token, refreshToken, tenantDomain);
              && done <= |Writes(op)| && kc.secrets == WriteAll(old(kc.secrets), profile, Writes(op), done)
              && (r.Ok? ==> Accepts(op) && Complete(Call(op, done)))
              && (r == Err(MissingCredentials) <==> !Accepts(op))
      ensures r == Err(MissingCredentials) <==> token == "" || tenantDomain == ""
      ensures r == Err(MissingCredentials) ==> kc.secrets == old(kc.secrets)
    {
      done := 0;
      if token == "" { return Err(MissingCredentials), 0; }
      if tenantDomain == "" { return Err(MissingCredentials), 0; }
      r, done := SetAll([Put(FIELD_TOKEN, token), Put(FIELD_REFRESH_TOKEN, refreshToken), Put(FIELD_TENANT_DOMAIN, tenantDomain)]);
    }

    /** A field that is already absent is not an error. */
    method Clear() returns (r: Result<(), Error>, ghost done: nat)
      modifies kc
      ensures kc.faults >= old(kc.faults) && (r == Err(KeychainFailed) ==> kc.faults > old(kc.faults))
      ensures var op := Op.Clear(profile);
              && done <= |Writes(op)| && kc.secrets == WriteAll(old(kc.secrets), profile, Writes(op), done)
              && (r.Ok? ==> Complete(Call(op, done)))
              && (r.Err? ==> r.error == KeychainFailed && done < |Writes(op)|)
    {
      var fields := [FIELD_API_KEY, FIELD_TOKEN, FIELD_REFRESH_TOKEN, FIELD_TENANT_DOMAIN];
      ghost var ws := Writes(Op.Clear(profile));
      done := 0;
      for n := 0 to |fields|
        invariant done == n && kc.secrets == WriteAll(old(kc.secrets), profile, ws, n) && kc.faults >= old(kc.faults)
      {
        assert ws[n] == Drop(fields[n]);
        var d := kc.Delete(KeyForField(profile, fields[n]));
        if d.Failure? {
          return Err(KeychainFailed), done;
        }
        assert kc.secrets == WriteOne(WriteAll(old(kc.secrets), profile, ws, n), profile, ws[n]);
        done := n + 1;
      }
      r := Ok(());
    }
  }

  class CredentialResolver {
    const profile: string
    const kc: Keychain
    const credType: CredentialType

    constructor (cfg: Config, kc: Keychain, credType: CredentialType)
      ensures this.profile == cfg.profile && this.kc == kc && this.credType == credType
    {
      profile := cfg.profile;
      this.kc := kc;
      this.credType := credType;
    }

    method ReadField(field: string) returns (r: Result<string, Error>)
      modifies kc`faults
      ensures kc.faults >= old(kc.faults)
      ensures r == GetField(kc.secrets, profile, field) || (r == Err(KeychainFailed) && kc.faults > old(kc.faults))
    {
      var got := kc.Get(KeyForField(profile, field));
      match got {
        case Value(v) => r := Ok(v);
        case NotFound => r := Err(MissingCredentials);
        case _ => r := Err(KeychainFailed);
      }
    }

    method ResolveAPIKey() returns (r: Result<Credentials, Error>)
      modifies kc`faults
      ensures kc.faults >= old(kc.faults)
      ensures r == Resolved(kc.secrets, profile, APIKey) || (r == Err(KeychainFailed) && kc.faults > old(kc.faults))
    {
      var apiKey := ReadField(FIELD_API_KEY);
      if apiKey.Err? { return Err(apiKey.error); }
      var tenantDomain := ReadField(FIELD_TENANT_DOMAIN);
      if tenantDomain.Err? { return Err(tenantDomain.error); }
      if apiKey.value == "" { return Err(MissingCredentials); }
      r := Ok(APIKeyCredential(apiKey.value, tenantDomain.value));
    }

    /** Only a missing refresh token is tolerated, not one that could not be read. */
    method ResolveToken() returns (r: Result<Credentials, Error>)
      modifies kc`faults
      ensures kc.faults >= old(kc.faults)
      ensures r == Resolved(kc.secrets, profile, Token) || (r == Err(KeychainFailed) && kc.faults > old(kc.faults))
    {
      var token := ReadField(FIELD_TOKEN);
      if token.Err? { return Err(token.error); }
      var refreshToken := ReadField(FIELD_REFRESH_TOKEN);
      if refreshToken.Err? && refreshToken.error != MissingCredentials { return Err(refreshToken.error); }
      var tenantDomain := ReadField(FIELD_TENANT_DOMAIN);
      if tenantDomain.Err? { return Err(tenantDomain.error); }
      if token.value == "" { return Err(MissingCredentials); }
      r := Ok(TokenCredential(token.value, if refreshToken.Ok? then refreshToken.value else "", tenantDomain.value));
    }

    method Resolve() returns (r: Result<Credentials, Error>)
      modifies kc`faults
      ensures kc.faults >= old(kc.faults)
      ensures r == Resolved(kc.secrets, profile, credType) || (r == Err(KeychainFailed) && kc.faults > old(kc.faults))
    {
      match credType {
        case APIKey => r := ResolveAPIKey();
        case Token => r := ResolveToken();
        case Unspecified => r := Err(InvalidCredentialType);
      }
    }
  }

  method ServeOne(kc: Keychain, op: Op) returns (r: Result<(), Error>, ghost done: nat)
    modifies kc
    ensures done <= |Writes(op)| && (r.Ok? ==> done == |Writes(op)|)
    ensures kc.secrets == WriteAll(old(kc.secrets), op.profile, Writes(op), done)
  {
    var store := new CredentialStore(Config(DEFAULT_APP_NAME, op.profile, true, false, ""), kc);
    match op
    case SaveAPIKey(_, apiKey, tenantDomain) => r, done := store.SaveAPIKeyCredential(apiKey, tenantDomain);
    case SaveToken(_, token, refreshToken, tenantDomain) =>
      r, done := store.SaveTokenCredential(token, refreshToken, tenantDomain);
    case Clear(_) => r, done := store.Clear();
  }

  /** Stores opened one after another on one keychain, for any profiles: what they leave
      is the play of their calls, and a nil error means a complete call. */
  method Serve(ops: seq<Op>) returns (kc: Keychain, replies: seq<Result<(), Error>>, ghost run: seq<Call>)
    ensures |replies| == |ops| == |run| && WellFormed(run)
    ensures forall k :: 0 <= k < |ops| ==> run[k].op == ops[k] && (replies[k].Ok? ==> Complete(run[k]))
    ensures kc.secrets == Play(run, |run|)
  {
    kc := new Keychain();
    replies, run := [], [];
    for n := 0 to |ops|
      invariant |replies| == n == |run| && WellFormed(run) && fresh(kc)
      invariant forall k :: 0 <= k < n ==> run[k].op == ops[k] && (replies[k].Ok? ==> Complete(run[k]))
      invariant kc.secrets == Play(run, n)
    {
      var r;
      ghost var done;
      r, done := ServeOne(kc, ops[n]);
      ghost var before := run;
      replies, run := replies + [r], run + [Call(ops[n], done)];
      PlayIgnoresLater(before, run, n);
    }
  }

  lemma {:induction false} PlayIgnoresLater(run: seq<Call>, longer: seq<Call>, n: nat)
    requires n <= |run| && run <= longer && WellFormed(longer) && WellFormed(run)
    ensures Play(run, n) == Play(longer, n)
  {
    if n > 0 {
      PlayIgnoresLater(run, longer, n - 1);
    }
  }
}
