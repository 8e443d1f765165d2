/** Event routing: parsing and printing of event names (events/routing.go) and their
    rendering as stream identities (stream/stream_events.go). */
module Routing {
  import opened Outcomes
  import opened Text
  import opened Decimal
  import SI = StreamIdentity

  datatype Routing = Routing(exposure: string, domain: string, major: nat, message: string, fqn: string)

  datatype Error = NotAnEvent | InvalidExposure | EmptyDomain | InvalidVersion | EmptyMessage

  predicate IsExposure(e: string) { e == "private" || e == "public" }

  function Name(r: Routing): string {
    r.domain + ".v" + Format(r.major) + "." + r.message
  }

  function FullName(r: Routing): string {
    if r.fqn != "" then r.fqn else "safedep.events." + r.exposure + "." + Name(r)
  }

  /** "v" and a decimal number that fits 32 bits. */
  function ParseMajor(seg: string): Option<nat> {
    if |seg| < 2 || seg[0] != 'v' then None else Parse(seg[1..], MAX_UINT32)
  }

  function RoutingForFullName(fqn: string): Result<Routing, Error> {
    var parts := Split(fqn, '.');
    if |parts| != 6 || parts[0] != "safedep" || parts[1] != "events" then Err(NotAnEvent)
    else if !IsExposure(parts[2]) then Err(InvalidExposure)
    else if parts[3] == "" then Err(EmptyDomain)
    else if ParseMajor(parts[4]).None? then Err(InvalidVersion)
    else if parts[5] == "" then Err(EmptyMessage)
    else Ok(Routing(parts[2], parts[3], ParseMajor(parts[4]).value, parts[5], fqn))
  }

  /** The dotted parts that `FullName` prints for a routing built as a literal. */
  function Parts(r: Routing): seq<string> {
    ["safedep", "events", r.exposure, r.domain, "v" + Format(r.major), r.message]
  }

  /** An event name with the version part as written. */
  function Dotted(exposure: string, domain: string, version: string, message: string): string {
    "safedep.events." + exposure + "." + (domain + "." + version + "." + message)
  }

  lemma {:induction false} SplitThree(a: string, b: string, c: string)
    requires Free(a, '.') && Free(b, '.') && Free(c, '.')
    ensures Split(a + "." + b + "." + c, '.') == [a, b, c]
  {
    assert a + "." + b + "." + c == a + "." + (b + "." + c);
    SplitAppend(a, b + "." + c, '.');
    SplitAppend(b, c, '.');
    SplitFree(a, '.');
    SplitFree(b, '.');
    SplitFree(c, '.');
  }

  lemma {:induction false} SplitDotted(exposure: string, domain: string, version: string, message: string)
    requires Free(exposure, '.') && Free(domain, '.') && Free(version, '.') && Free(message, '.')
    ensures Split(Dotted(exposure, domain, version, message), '.')
         == ["safedep", "events", exposure, domain, version, message]
  {
    var tail := domain + "." + version + "." + message;
    var head := "safedep" + "." + "events" + "." + exposure;
    SplitThree(domain, version, message);
    SplitThree("safedep", "events", exposure);
    SplitAppend(head, tail, '.');
    assert head + "." + tail == Dotted(exposure, domain, version, message);
  }

  lemma {:induction false} VersionFree(n: nat)
    ensures Free("v" + Format(n), '.') && Free("v0" + Format(n), '.')
  {
    var digits := Format(n);
    assert forall k :: 0 <= k < |digits| ==> IsDigit(digits[k]);
  }

  predicate ValidLiteral(r: Routing) {
    && IsExposure(r.exposure) && r.fqn == "" && r.major <= MAX_UINT32
    && r.domain != "" && Free(r.domain, '.')
    && r.message != "" && Free(r.message, '.')
  }

  lemma {:induction false} LiteralParts(r: Routing)
    requires ValidLiteral(r)
    ensures Split(FullName(r), '.') == Parts(r)
  {
    var version := "v" + Format(r.major);
    VersionFree(r.major);
    SplitDotted(r.exposure, r.domain, version, r.message);
    assert Name(r) == r.domain + "." + version + "." + r.message;
  }

  /** Printing a literal routing and parsing it back gives the same parts. */
  lemma {:induction false} ParsePrinted(r: Routing)
    requires ValidLiteral(r)
    ensures RoutingForFullName(FullName(r)) == Ok(r.(fqn := FullName(r)))
  {
    var digits := Format(r.major);
    LiteralParts(r);
    ParseFormat(r.major, MAX_UINT32);
    assert ("v" + digits)[1..] == digits;
  }

  /** The version part of an accepted name, as written. */
  function VersionDigits(fqn: string): string {
    var parts := Split(fqn, '.');
    if |parts| == 6 && |parts[4]| > 0 then parts[4][1..] else ""
  }

  /** What an accepted name looks like. */
  lemma {:induction false} AcceptedShape(fqn: string)
    requires RoutingForFullName(fqn).Ok?
    ensures var r, digits := RoutingForFullName(fqn).value, VersionDigits(fqn);
            && Split(fqn, '.') == ["safedep", "events", r.exposure, r.domain, "v" + digits, r.message]
            && (r.exposure == "private" || r.exposure == "public") && r.domain != "" && r.message != "" && r.fqn == fqn
            && digits != "" && AllDigits(digits) && Value(digits) == r.major < 4294967296
            && Free(r.domain, '.') && Free(r.message, '.')
  {
    var parts := Split(fqn, '.');
    SplitParts(fqn, '.');
    assert parts[4] == ['v'] + parts[4][1..];
    assert Free(parts[3], '.') && Free(parts[5], '.');
  }

  /** And every name of that look is accepted, with these parts. */
  lemma {:induction false} AcceptedExactly(exposure: string, domain: string, digits: string, message: string)
    requires exposure == "private" || exposure == "public"
    requires domain != "" && message != "" && Free(domain, '.') && Free(message, '.')
    requires digits != "" && AllDigits(digits) && Value(digits) < 4294967296
    ensures var fqn := Dotted(exposure, domain, "v" + digits, message);
            RoutingForFullName(fqn) == Ok(Routing(exposure, domain, Value(digits), message, fqn))
  {
    var version := "v" + digits;
    assert forall k :: 0 <= k < |digits| ==> IsDigit(digits[k]);
    assert Free(version, '.') && version[1..] == digits;
    assert Free(exposure, '.');
    SplitDotted(exposure, domain, version, message);
  }

  /** An accepted name prints as itself; printed from its parts alone it does so exactly
      when its version has no leading zero. */
  lemma {:induction false} PrintParsed(fqn: string)
    requires RoutingForFullName(fqn).Ok?
    ensures var r := RoutingForFullName(fqn).value;
            && FullName(r) == fqn
            && (FullName(r.(fqn := "")) == fqn <==> Canonical(VersionDigits(fqn)))
  {
    AcceptedShape(fqn);
    var r, digits := RoutingForFullName(fqn).value, VersionDigits(fqn);
    var bare := r.(fqn := "");
    JoinSplit(fqn, '.');
    JoinSplit(FullName(bare), '.');
    LiteralParts(bare);
    FormatOfValue(digits);
    assert ("v" + digits)[1..] == digits && ("v" + Format(r.major))[1..] == Format(r.major);
    if FullName(bare) == fqn {
      assert Parts(bare)[4] == Split(fqn, '.')[4];
    }
  }

  // ---------- Rendering as streams ----------

  function StreamFor(r: Routing): SI.Stream {
    SI.Stream("", r.exposure, Name(r), false)
  }

  function StreamForWithTenant(r: Routing, tenant: string): SI.Stream {
    SI.WithTenant(StreamFor(r), tenant)
  }

  /** The identity of a feed, in full. */
  lemma {:induction false} RenderedID(r: Routing, tenant: string)
    requires r.exposure != "" && tenant != ""
    ensures SI.ID(StreamFor(r)) == Ok(r.exposure + ":" + (r.domain + ".v" + Format(r.major) + "." + r.message))
    ensures SI.ID(StreamForWithTenant(r, tenant)) ==
            Ok(tenant + ":" + r.exposure + ":" + (r.domain + ".v" + Format(r.major) + "." + r.message))
  {
    SI.IDExactly(StreamFor(r));
    SI.IDExactly(StreamForWithTenant(r, tenant));
  }

  predicate SameFeed(a: Routing, b: Routing) {
    a.exposure == b.exposure && a.domain == b.domain && a.major == b.major && a.message == b.message
  }

  /** A name is recovered from its dotted form when domain and message have no dot. */
  lemma {:induction false} NameInjective(a: Routing, b: Routing)
    requires Free(a.domain, '.') && Free(a.message, '.') && Free(b.domain, '.') && Free(b.message, '.')
    ensures Name(a) == Name(b) <==> a.domain == b.domain && a.major == b.major && a.message == b.message
  {
    NameParts(a);
    NameParts(b);
    FormatValue(a.major);
    FormatValue(b.major);
    if Name(a) == Name(b) {
      var pa, pb := [a.domain, "v" + Format(a.major), a.message], [b.domain, "v" + Format(b.major), b.message];
      assert pa[0] == pb[0] && pa[1] == pb[1] && pa[2] == pb[2];
      assert pa[1][1..] == Format(a.major) && pb[1][1..] == Format(b.major);
    }
  }

  lemma {:induction false} NameParts(r: Routing)
    requires Free(r.domain, '.') && Free(r.message, '.')
    ensures Split(Name(r), '.') == [r.domain, "v" + Format(r.major), r.message]
  {
    VersionFree(r.major);
    SplitThree(r.domain, "v" + Format(r.major), r.message);
    assert Name(r) == r.domain + "." + ("v" + Format(r.major)) + "." + r.message;
  }

  /** Two accepted, colon-free names share a stream identity exactly when they differ at
      most in leading zeros of the version; with canonical versions, only when equal. */
  lemma {:induction false} StreamOfEvent(f: string, g: string)
    requires RoutingForFullName(f).Ok? && RoutingForFullName(g).Ok?
    requires Free(f, ':') && Free(g, ':')
    ensures var a, b := RoutingForFullName(f).value, RoutingForFullName(g).value;
            && SI.ID(StreamFor(a)).Ok? && SI.ID(StreamFor(b)).Ok?
            && (SI.ID(StreamFor(a)) == SI.ID(StreamFor(b)) <==> SameFeed(a, b))
            && (Canonical(VersionDigits(f)) && Canonical(VersionDigits(g)) ==>
                  (SI.ID(StreamFor(a)) == SI.ID(StreamFor(b)) <==> f == g))
  {
    AcceptedShape(f);
    AcceptedShape(g);
    var a, b := RoutingForFullName(f).value, RoutingForFullName(g).value;
    NameInjective(a, b);
    RenderedColonFree(f);
    RenderedColonFree(g);
    SI.IDInjective(StreamFor(a), StreamFor(b));
    PrintParsed(f);
    PrintParsed(g);
    if SameFeed(a, b) {
      assert a.(fqn := "") == b.(fqn := "");
    }
  }

  /** Tenant-scoped feeds stay apart, whatever the tenants are called: accepted colon-free
      names under non-empty tenants share an identity exactly for the same tenant and feed,
      and never with a global feed. */
  lemma {:induction false} TenantFeeds(f: string, g: string, t: string, u: string)
    requires RoutingForFullName(f).Ok? && RoutingForFullName(g).Ok?
    requires Free(f, ':') && Free(g, ':') && t != "" && u != ""
    ensures var a, b := RoutingForFullName(f).value, RoutingForFullName(g).value;
            var x, y := StreamForWithTenant(a, t), StreamForWithTenant(b, u);
            && SI.ID(x).Ok? && SI.ID(y).Ok?
            && (SI.ID(x) == SI.ID(y) <==> t == u && SameFeed(a, b))
            && SI.ID(x) != SI.ID(StreamFor(b))
  {
    var a, b := RoutingForFullName(f).value, RoutingForFullName(g).value;
    StreamOfEvent(f, g);
    AcceptedShape(f);
    AcceptedShape(g);
    NameInjective(a, b);
    RenderedPieces(f, t);
    RenderedPieces(g, u);
    SI.IDCollision(StreamForWithTenant(a, t), StreamForWithTenant(b, u));
    SI.IDCollision(StreamForWithTenant(a, t), StreamFor(b));
    JoinSplit(t, ':');
    JoinSplit(u, ':');
    LastTwo(Split(t, ':'), a.exposure, Name(a), Split(u, ':'), b.exposure, Name(b));
  }

  lemma {:induction false} LastTwo(p: seq<string>, a: string, b: string, q: seq<string>, c: string, d: string)
    ensures p + [a, b] == q + [c, d] <==> p == q && a == c && b == d
  {
    if p + [a, b] == q + [c, d] {
      assert (p + [a, b])[|p|] == a && (p + [a, b])[|p| + 1] == b;
      assert (q + [c, d])[|q|] == c && (q + [c, d])[|q| + 1] == d;
      assert p == (p + [a, b])[..|p|] && q == (q + [c, d])[..|q|];
    }
  }

  /** The colon-separated pieces of a rendered feed, with and without a tenant. */
  lemma {:induction false} RenderedPieces(f: string, t: string)
    requires RoutingForFullName(f).Ok? && Free(f, ':')
    ensures var r := RoutingForFullName(f).value;
            && SplitAll(SI.Segments(StreamForWithTenant(r, t)), ':') == Split(t, ':') + [r.exposure, Name(r)]
            && SplitAll(SI.Segments(StreamFor(r)), ':') == [r.exposure, Name(r)]
  {
    var r := RoutingForFullName(f).value;
    RenderedColonFree(f);
    assert SI.Segments(StreamFor(r)) == [r.exposure, Name(r)];
    assert SI.Segments(StreamForWithTenant(r, t)) == [t] + [r.exposure, Name(r)];
    SplitAllFree([r.exposure, Name(r)], ':');
    assert ([t] + [r.exposure, Name(r)])[1..] == [r.exposure, Name(r)];
  }

  lemma {:induction false} PartsAreFree(s: string, sep: char, c: char)
    requires Free(s, c)
    ensures forall k :: 0 <= k < |Split(s, sep)| ==> Free(Split(s, sep)[k], c)
  {
    if s != "" {
      PartsAreFree(s[1..], sep, c);
      var rest := Split(s[1..], sep);
      assert Free(rest[0], c);
      assert s[0] != c;
      assert Free([s[0]] + rest[0], c);
    }
  }

  lemma {:induction false} RenderedColonFree(f: string)
    requires RoutingForFullName(f).Ok? && Free(f, ':')
    ensures SI.ColonFree(StreamFor(RoutingForFullName(f).value))
  {
    var r := RoutingForFullName(f).value;
    var digits := Format(r.major);
    AcceptedShape(f);
    PartsAreFree(f, '.', ':');
    assert Free(Split(f, '.')[3], ':') && Free(Split(f, '.')[5], ':');
    assert forall k :: 0 <= k < |digits| ==> IsDigit(digits[k]);
    assert Free(Name(r), ':');
  }

  lemma {:induction false} PaddedAccepted(r: Routing)
    requires ValidLiteral(r)
    ensures var g := Dotted(r.exposure, r.domain, "v0" + Format(r.major), r.message);
            RoutingForFullName(g) == Ok(r.(fqn := g)) && g != FullName(r)
  {
    var digits := Format(r.major);
    var version := "v0" + digits;
    VersionFree(r.major);
    SplitDotted(r.exposure, r.domain, version, r.message);
    LiteralParts(r);
    LeadingZero(digits);
    FormatValue(r.major);
    assert version[1..] == "0" + digits;
    assert |version| != |Parts(r)[4]|;
  }

  /** Leading zeros are accepted, so distinct names can share one stream. */
  lemma {:induction false} LeadingZeroCollides(r: Routing)
    requires ValidLiteral(r)
    ensures var f, g := FullName(r), Dotted(r.exposure, r.domain, "v0" + Format(r.major), r.message);
            && f != g && RoutingForFullName(f).Ok? && RoutingForFullName(g).Ok?
            && StreamFor(RoutingForFullName(f).value) == StreamFor(RoutingForFullName(g).value)
  {
    ParsePrinted(r);
    PaddedAccepted(r);
  }

  lemma {:induction false} LeadingZero(digits: string)
    requires AllDigits(digits)
    ensures AllDigits("0" + digits) && Value("0" + digits) == Value(digits)
  {
    var padded := "0" + digits;
    if digits != "" {
      LeadingZero(digits[..|digits| - 1]);
      assert padded[..|padded| - 1] == "0" + digits[..|digits| - 1];
    } else {
      assert padded[..0] == "";
    }
  }
}
