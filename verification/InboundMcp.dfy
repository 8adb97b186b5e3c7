/** The inbound MCP endpoint (api/inbound_mcp.py): which of two protocol eras serves a request, and what legacy requests
    do to the session registry. Identity and grants are what the pipeline finds at that moment; the tool call itself
    and the contents of results are not modelled. */
module InboundMcp {
  import opened Options
  import opened SessionRegistry
  import opened Text

  // --- Protocol versions -------------------------------------------------------------------

  const MODERN_PROTOCOL_VERSION := "2026-07-28"

  const INVALID_REQUEST := -32600
  const METHOD_NOT_FOUND := -32601
  const PARSE_ERROR := -32700
  const HEADER_MISMATCH := -32020
  const UNSUPPORTED_PROTOCOL_VERSION := -32022

  /** String comparison, by code points. */
  predicate Less(a: string, b: string) {
    if b == "" then false
    else if a == "" then true
    else if a[0] != b[0] then a[0] < b[0]
    else Less(a[1..], b[1..])
  }

  lemma {:induction false} LessAppend(a: string, b: string, x: string, y: string)
    requires |a| == |b|
    ensures Less(a + x, b + y) <==> Less(a, b) || (a == b && Less(x, y))
    ensures a == b ==> !Less(a, b)
  {
    if a == "" {
      assert a + x == x && b + y == y;
    } else {
      assert (a + x)[1..] == a[1..] + x && (b + y)[1..] == b[1..] + y;
      assert a == [a[0]] + a[1..] && b == [b[0]] + b[1..];
      LessAppend(a[1..], b[1..], x, y);
    }
  }

  lemma {:induction false} NotLessItself(a: string)
    ensures !Less(a, a)
  {
    if a != "" {
      NotLessItself(a[1..]);
    }
  }

  /** `b` goes on with a greater character, or just goes on, where `a` and `b` part at position `k`. */
  predicate PartAt(a: string, b: string, k: nat) {
    k <= |a| && k < |b| && a[..k] == b[..k] && (k == |a| || a[k] < b[k])
  }

  lemma PartLater(a: string, b: string, k: nat)
    requires a != "" && b != "" && a[0] == b[0]
    ensures PartAt(a[1..], b[1..], k) <==> PartAt(a, b, k + 1)
  {
    if k < |a| && k < |b| {
      assert a[..k + 1] == [a[0]] + a[1..][..k] && b[..k + 1] == [b[0]] + b[1..][..k];
      assert a[..k + 1][1..] == a[1..][..k] && b[..k + 1][1..] == b[1..][..k];
    }
  }

  lemma {:induction false} LessExactly(a: string, b: string)
    ensures Less(a, b) <==> exists k: nat :: PartAt(a, b, k)
  {
    assert PartAt(a, b, 0) <==> b != "" && (a == "" || a[0] < b[0]);
    if a != "" && b != "" && a[0] == b[0] {
      LessExactly(a[1..], b[1..]);
      forall k: nat ensures PartAt(a[1..], b[1..], k) <==> PartAt(a, b, k + 1) { PartLater(a, b, k); }
      assert forall k: nat :: k > 0 ==> (PartAt(a, b, k) <==> PartAt(a[1..], b[1..], k - 1));
    } else {
      assert forall k: nat :: k > 0 && k <= |a| && k < |b| ==> a[..k][0] == a[0] && b[..k][0] == b[0];
    }
  }

  function Digit(n: nat): char
    requires n < 10
  {
    ('0' as int + n) as char
  }

  function Two(n: nat): (s: string)
    requires n < 100
    ensures |s| == 2
  {
    [Digit(n / 10), Digit(n % 10)]
  }

  datatype Date = Date(year: nat, month: nat, day: nat)

  predicate Printable(d: Date) {
    d.year < 10000 && d.month < 100 && d.day < 100
  }

  /** YYYY-MM-DD */
  function Iso(d: Date): string
    requires Printable(d)
  {
    Two(d.year / 100) + (Two(d.year % 100) + ("-" + (Two(d.month) + ("-" + Two(d.day)))))
  }

  predicate Before(a: Date, b: Date) {
    a.year < b.year || (a.year == b.year && (a.month < b.month || (a.month == b.month && a.day < b.day)))
  }

  lemma TwoOrder(m: nat, n: nat)
    requires m < 100 && n < 100
    ensures Less(Two(m), Two(n)) <==> m < n
    ensures Two(m) == Two(n) <==> m == n
  {
    var (a, b, c, d) := ([Digit(m / 10)], [Digit(n / 10)], [Digit(m % 10)], [Digit(n % 10)]);
    assert Two(m) == a + c && Two(n) == b + d;
    LessAppend(a, b, c, d);
    assert Less(a, b) <==> m / 10 < n / 10;
    assert Less(c, d) <==> m % 10 < n % 10;
    assert Two(m) == Two(n) ==> Two(m)[0] == Two(n)[0] && Two(m)[1] == Two(n)[1];
  }

  /** On dates in ISO form, comparing strings compares dates. */
  lemma IsoOrder(a: Date, b: Date)
    requires Printable(a) && Printable(b)
    ensures Less(Iso(a), Iso(b)) <==> Before(a, b)
  {
    hide Two;
    var (c, d, e, f) := (a.year / 100, b.year / 100, a.year % 100, b.year % 100);
    TwoOrder(c, d);
    TwoOrder(e, f);
    TwoOrder(a.month, b.month);
    TwoOrder(a.day, b.day);
    LessAppend(Two(a.month), Two(b.month), "-" + Two(a.day), "-" + Two(b.day));
    LessAppend("-", "-", Two(a.day), Two(b.day));
    LessAppend("-", "-", Two(a.month) + ("-" + Two(a.day)), Two(b.month) + ("-" + Two(b.day)));
    LessAppend(Two(e), Two(f), "-" + (Two(a.month) + ("-" + Two(a.day))), "-" + (Two(b.month) + ("-" + Two(b.day))));
    LessAppend(Two(c), Two(d), Two(e) + ("-" + (Two(a.month) + ("-" + Two(a.day)))),
               Two(f) + ("-" + (Two(b.month) + ("-" + Two(b.day)))));
  }

  // --- Requests ----------------------------------------------------------------------------

  /** What identity, virtual-server lookup and grant check find for one request. */
  datatype Access = Access(identity: Option<Principal>, serverExists: bool, granted: bool)

  datatype Auth = Rejected(status: nat) | Admitted(principal: Principal)

  function Authenticate(a: Access): Auth {
    if a.identity.None? then Rejected(401)
    else if !a.serverExists then Rejected(404)
    else if !a.granted then Rejected(403)
    else Admitted(a.identity.value)
  }

  /** A method that is absent or not a string is `None`; a version in `_meta` that is not a string likewise. */
  datatype Body = Unreadable | NotAnObject | Message(name: Option<string>, metaVersion: Option<string>)

  datatype Request = Request(tenant: nat, vserver: string, size: nat, body: Body, headerVersion: Option<string>,
                             headerMethod: Option<string>, headerSession: Option<string>)

  datatype Settings = Settings(maxBody: nat, sessionTtl: real)

  datatype Outcome =
    | Error(status: nat, code: int)
    | Empty(status: nat)
    | Opened(sid: string)
    | Discovered
    | ListsTools(tenant: nat, vserver: string)
    | CallsTool(session: Session)

  datatype Reply = Reply(sessions: Sessions, outcome: Outcome)

  /** An empty header or field counts as absent. */
  function Present(field: Option<string>): Option<string> {
    if field == Some("") then None else field
  }

  /** The version a request declares: `_meta` wins over the header. */
  function Declared(r: Request): Option<string>
    requires r.body.Message?
  {
    if Present(r.body.metaVersion).Some? then r.body.metaVersion else Present(r.headerVersion)
  }

  /** A declared version below the modern one does not select the modern era. */
  function ModernVersion(r: Request): Option<string>
    requires r.body.Message?
  {
    if Declared(r).None? || Less(Declared(r).value, MODERN_PROTOCOL_VERSION) then None else Declared(r)
  }

  function HandleInitialize(sessions: Sessions, now: real, r: Request, a: Access, uuid: string, c: Settings): Reply {
    match Authenticate(a)
    case Rejected(status) => Reply(sessions, Error(status, INVALID_REQUEST))
    case Admitted(principal) =>
      var session := Session(uuid, r.tenant, r.vserver, principal, now + c.sessionTtl);
      Reply(sessions[(r.tenant, uuid) := session], Opened(uuid))
  }

  function HandleModern(r: Request, a: Access, now: real, uuid: string): Outcome
    requires r.body.Message?
  {
    var name := r.body.name;
    var version := ModernVersion(r);
    if name != Some("server/discover") && version.Some? && version.value != MODERN_PROTOCOL_VERSION then
      Error(200, UNSUPPORTED_PROTOCOL_VERSION)
    else if Present(r.headerMethod).Some? && r.headerMethod != name then Error(400, HEADER_MISMATCH)
    else if name.Some? && StartsWith(name.value, "notifications/") then Empty(202)
    else
      match Authenticate(a)
      case Rejected(status) => Error(status, INVALID_REQUEST)
      case Admitted(principal) =>
        if name == Some("server/discover") then Discovered
        else if name == Some("tools/list") then ListsTools(r.tenant, r.vserver)
        else if name == Some("tools/call") then
          CallsTool(Session("stateless-" + uuid, r.tenant, r.vserver, principal, now + 60.0))
        else Error(200, METHOD_NOT_FOUND)
  }

  function HandleLegacy(sessions: Sessions, now: real, r: Request): Reply
    requires r.body.Message?
  {
    if Present(r.headerSession).None? then Reply(sessions, Error(400, INVALID_REQUEST))
    else
      var key := (r.tenant, r.headerSession.value);
      var session := Found(sessions, key, now);
      Reply(AfterLookup(sessions, key, now),
            if session.None? || session.value.vserver != r.vserver then Error(404, INVALID_REQUEST)
            else if r.body.name == Some("tools/list") then ListsTools(r.tenant, r.vserver)
            else if r.body.name == Some("tools/call") then CallsTool(session.value)
            else Error(200, METHOD_NOT_FOUND))
  }

  function Post(sessions: Sessions, now: real, r: Request, a: Access, uuid: string, c: Settings): Reply {
    if r.size > c.maxBody then Reply(sessions, Error(413, INVALID_REQUEST))
    else
      match r.body
      case Unreadable => Reply(sessions, Error(200, PARSE_ERROR))
      case NotAnObject => Reply(sessions, Error(200, INVALID_REQUEST))
      case Message(name, _) =>
        if name == Some("initialize") then HandleInitialize(sessions, now, r, a, uuid, c)
        else if name == Some("notifications/initialized") then Reply(sessions, Empty(202))
        else if name == Some("server/discover") || ModernVersion(r).Some? then
          Reply(sessions, HandleModern(r, a, now, uuid))
        else HandleLegacy(sessions, now, r)
  }

  function Delete(sessions: Sessions, now: real, tenant: nat, vserver: string, header: Option<string>,
                  a: Access): Reply
  {
    if Present(header).None? then Reply(sessions, Empty(204))
    else
      match Authenticate(a)
      case Rejected(status) => Reply(sessions, Empty(status))
      case Admitted(principal) =>
        var key := (tenant, header.value);
        var session := Found(sessions, key, now);
        if session.Some? && session.value.vserver == vserver && session.value.principal == principal then
          Reply(sessions - {key}, Empty(204))
        else Reply(AfterLookup(sessions, key, now), Empty(204))
  }

  // --- The endpoints -----------------------------------------------------------------------

  method HandlePost(registry: InMemorySessionRegistry, now: real, r: Request, a: Access, uuid: string, c: Settings)
    returns (outcome: Outcome)
    modifies registry
    ensures Reply(registry.sessions, outcome) == Post(old(registry.sessions), now, r, a, uuid, c)
  {
    if r.size > c.maxBody { return Error(413, INVALID_REQUEST); }
    if r.body.Unreadable? { return Error(200, PARSE_ERROR); }
    if r.body.NotAnObject? { return Error(200, INVALID_REQUEST); }
    var name := r.body.name;
    if name == Some("initialize") {
      var auth := Authenticate(a);
      if auth.Rejected? { return Error(auth.status, INVALID_REQUEST); }
      registry.CreateSession(Session(uuid, r.tenant, r.vserver, auth.principal, now + c.sessionTtl));
      return Opened(uuid);
    }
    if name == Some("notifications/initialized") { return Empty(202); }
    if name == Some("server/discover") || ModernVersion(r).Some? {
      return HandleModern(r, a, now, uuid);
    }
    if Present(r.headerSession).None? { return Error(400, INVALID_REQUEST); }
    var session := registry.GetSession(r.tenant, r.headerSession.value, now);
    if session.None? { return Error(404, INVALID_REQUEST); }
    if session.value.vserver != r.vserver { return Error(404, INVALID_REQUEST); }
    if name == Some("tools/list") { return ListsTools(r.tenant, r.vserver); }
    if name == Some("tools/call") { return CallsTool(session.value); }
    return Error(200, METHOD_NOT_FOUND);
  }

  method HandleDelete(registry: InMemorySessionRegistry, now: real, tenant: nat, vserver: string,
                      header: Option<string>, a: Access)
    returns (outcome: Outcome)
    modifies registry
    ensures Reply(registry.sessions, outcome) == Delete(old(registry.sessions), now, tenant, vserver, header, a)
  {
    if Present(header).None? { return Empty(204); }
    var auth := Authenticate(a);
    if auth.Rejected? { return Empty(auth.status); }
    var session := registry.GetSession(tenant, header.value, now);
    if session.None? { return Empty(204); }
    if session.value.vserver != vserver || session.value.principal != auth.principal { return Empty(204); }
    registry.DeleteSession(tenant, header.value);
    return Empty(204);
  }

  // --- Era dispatch ------------------------------------------------------------------------

  predicate Modern(r: Request) {
    && r.body.Message? && r.body.name != Some("initialize") && r.body.name != Some("notifications/initialized")
    && (r.body.name == Some("server/discover") || ModernVersion(r).Some?)
  }

  /** A request that declares a dated version is modern exactly from 28 July 2026 on, unless it is the handshake of the
      legacy era. */
  lemma DatedRequestIsModernExactly(r: Request, d: Date)
    requires r.body.Message? && Printable(d) && Declared(r) == Some(Iso(d))
    ensures Modern(r) <==>
              && r.body.name != Some("initialize") && r.body.name != Some("notifications/initialized")
              && (r.body.name == Some("server/discover") || !Before(d, Date(2026, 7, 28)))
  {
    assert MODERN_PROTOCOL_VERSION == Iso(Date(2026, 7, 28));
    IsoOrder(d, Date(2026, 7, 28));
  }

  /** The modern era is stateless: for any two registries the answer is the same, and neither registry changes. */
  lemma ModernIsStateless(one: Sessions, other: Sessions, now: real, r: Request, a: Access, uuid: string, c: Settings)
    requires Modern(r)
    ensures Post(one, now, r, a, uuid, c).outcome == Post(other, now, r, a, uuid, c).outcome
    ensures Post(one, now, r, a, uuid, c).sessions == one
    ensures !Post(one, now, r, a, uuid, c).outcome.Opened?
  {
    hide Less;
  }

  /** The version a request declares, told from its fields: the one in `_meta`, or else the one in the header. */
  predicate Declares(r: Request, v: string)
    requires r.body.Message?
  {
    v != "" && (r.body.metaVersion == Some(v)
                || (r.body.metaVersion in {None, Some("")} && r.headerVersion == Some(v)))
  }

  lemma DeclaredExactly(r: Request, v: string)
    requires r.body.Message?
    ensures Declared(r) == Some(v) <==> Declares(r, v)
  {
  }

  predicate FullAccess(a: Access) {
    a.identity.Some? && a.serverExists && a.granted
  }

  predicate HeaderAgrees(r: Request)
    requires r.body.Message?
  {
    r.headerMethod in {None, Some(""), r.body.name}
  }

  /** A readable request of this method. */
  predicate Asks(r: Request, c: Settings, name: string) {
    r.size <= c.maxBody && r.body.Message? && r.body.name == Some(name)
  }

  predicate Notifies(r: Request)
    requires r.body.Message?
  {
    r.body.name.Some? && StartsWith(r.body.name.value, "notifications/")
  }

  /** Which modern request gets which answer, exactly: a call or a list needs version 2026-07-28 and no other, an
      agreeing method header if any, and the whole access check passed; discovery needs no particular version. A call
      runs as the caller, with a session that is in no registry. */
  lemma ModernCallExactly(ss: Sessions, now: real, r: Request, a: Access, uuid: string, c: Settings)
    requires Modern(r)
    ensures var outcome := Post(ss, now, r, a, uuid, c).outcome;
            var admitted := HeaderAgrees(r) && FullAccess(a);
            && (outcome.CallsTool? <==> Asks(r, c, "tools/call") && Declares(r, "2026-07-28") && admitted)
            && (outcome.CallsTool? ==>
                  outcome.session == Session("stateless-" + uuid, r.tenant, r.vserver, a.identity.value, now + 60.0))
            && (outcome.ListsTools? <==> Asks(r, c, "tools/list") && Declares(r, "2026-07-28") && admitted)
            && (outcome.ListsTools? ==> outcome == ListsTools(r.tenant, r.vserver))
            && (outcome.Discovered? <==> Asks(r, c, "server/discover") && admitted)
            && (outcome.Empty? <==>
                  r.size <= c.maxBody && Notifies(r) && Declares(r, "2026-07-28") && HeaderAgrees(r))
            && (outcome.Empty? ==> outcome == Empty(202)) && !outcome.Opened?
  {
    hide Less, Declared, Declares;
    DeclaredExactly(r, MODERN_PROTOCOL_VERSION);
    NotLessItself(MODERN_PROTOCOL_VERSION);
    assert "tools/call"[0] == 't' && "tools/list"[0] == 't' && "server/discover"[0] == 's';
    assert "notifications/"[0] == 'n';
  }

  /** A modern request past its version and header checks that is no notification, so that access is looked up. */
  predicate ReachesAccess(r: Request, c: Settings)
    requires r.body.Message?
  {
    && r.size <= c.maxBody && (r.body.name == Some("server/discover") || Declares(r, "2026-07-28"))
    && HeaderAgrees(r) && !Notifies(r)
  }

  /** The errors of the modern era, exactly: first the size, then the version, the header, access and the method. */
  lemma ModernErrorsExactly(ss: Sessions, now: real, r: Request, a: Access, uuid: string, c: Settings)
    requires Modern(r)
    ensures var outcome := Post(ss, now, r, a, uuid, c).outcome;
            var versionOk := r.body.name == Some("server/discover") || Declares(r, "2026-07-28");
            && (outcome == Error(413, -32600) <==> r.size > c.maxBody)
            && (outcome == Error(200, -32022) <==> r.size <= c.maxBody && !versionOk)
            && (outcome == Error(400, -32020) <==> r.size <= c.maxBody && versionOk && !HeaderAgrees(r))
            && (outcome == Error(401, -32600) <==> ReachesAccess(r, c) && a.identity.None?)
            && (outcome == Error(404, -32600) <==> ReachesAccess(r, c) && a.identity.Some? && !a.serverExists)
            && (outcome == Error(403, -32600) <==>
                  ReachesAccess(r, c) && a.identity.Some? && a.serverExists && !a.granted)
            && (outcome == Error(200, -32601) <==>
                  && ReachesAccess(r, c) && FullAccess(a)
                  && r.body.name !in {Some("server/discover"), Some("tools/list"), Some("tools/call")})
  {
    hide Less, Declared, Declares;
    DeclaredExactly(r, MODERN_PROTOCOL_VERSION);
    NotLessItself(MODERN_PROTOCOL_VERSION);
    assert "notifications/"[0] == 'n' && "server/discover"[0] == 's';
  }

  /** The request names a live session of its own tenant and virtual server. */
  predicate InSession(ss: Sessions, now: real, r: Request) {
    r.headerSession.Some? && r.headerSession.value != ""
    && var key := (r.tenant, r.headerSession.value);
       key in ss && now < ss[key].expiresAt && ss[key].vserver == r.vserver
  }

  /** Every other request is served by the legacy rules; a list or a call needs a live session of the same tenant and
      virtual server, and a call runs in that very session. */
  lemma LegacyDispatchExactly(ss: Sessions, now: real, r: Request, a: Access, uuid: string, c: Settings)
    requires !Modern(r)
    ensures var outcome := Post(ss, now, r, a, uuid, c).outcome;
            && (outcome.CallsTool? <==> Asks(r, c, "tools/call") && InSession(ss, now, r))
            && (outcome.CallsTool? ==> outcome.session == ss[(r.tenant, r.headerSession.value)])
            && (outcome.ListsTools? <==> Asks(r, c, "tools/list") && InSession(ss, now, r))
            && (outcome.ListsTools? ==> outcome == ListsTools(r.tenant, r.vserver))
            && (outcome.Opened? <==> Asks(r, c, "initialize") && FullAccess(a))
            && (outcome.Opened? ==> outcome == Opened(uuid))
            && (outcome.Empty? <==> Asks(r, c, "notifications/initialized"))
            && (outcome.Empty? ==> outcome == Empty(202)) && !outcome.Discovered?
  {
  }

  /** What a legacy request outside the handshake does to the registry: the entry it names goes when it has expired,
      and nothing else changes. */
  lemma OnlyExpiredEntriesGo(ss: Sessions, now: real, r: Request, a: Access, uuid: string, c: Settings)
    requires !Modern(r) && !Asks(r, c, "initialize")
    ensures var t := Post(ss, now, r, a, uuid, c).sessions;
            var key := (r.tenant, if r.headerSession.Some? then r.headerSession.value else "");
            && (forall k :: k in ss && (k != key || now < ss[k].expiresAt) ==> k in t && t[k] == ss[k])
            && (forall k :: k in t ==> k in ss)
            && (key in ss && key in t && NeedsSession(r, c) && key.1 != "" ==> now < ss[key].expiresAt)
  {
  }

  /** A readable legacy request that is not part of the handshake. */
  predicate NeedsSession(r: Request, c: Settings) {
    && r.size <= c.maxBody && r.body.Message?
    && r.body.name !in {Some("initialize"), Some("notifications/initialized")}
  }

  /** The errors of the legacy era, exactly. */
  lemma LegacyErrorsExactly(ss: Sessions, now: real, r: Request, a: Access, uuid: string, c: Settings)
    requires !Modern(r)
    ensures var outcome := Post(ss, now, r, a, uuid, c).outcome;
            && (outcome == Error(413, -32600) <==> r.size > c.maxBody)
            && (outcome == Error(200, -32700) <==> r.size <= c.maxBody && r.body.Unreadable?)
            && (outcome == Error(200, -32600) <==> r.size <= c.maxBody && r.body.NotAnObject?)
            && (outcome == Error(401, -32600) <==> Asks(r, c, "initialize") && a.identity.None?)
            && (outcome == Error(403, -32600) <==>
                  Asks(r, c, "initialize") && a.identity.Some? && a.serverExists && !a.granted)
            && (outcome == Error(400, -32600) <==> NeedsSession(r, c) && r.headerSession in {None, Some("")})
            && (outcome == Error(404, -32600) <==>
                  || (Asks(r, c, "initialize") && a.identity.Some? && !a.serverExists)
                  || (NeedsSession(r, c) && r.headerSession !in {None, Some("")} && !InSession(ss, now, r)))
            && (outcome == Error(200, -32601) <==>
                  && NeedsSession(r, c) && InSession(ss, now, r)
                  && r.body.name !in {Some("tools/list"), Some("tools/call")})
  {
  }

  /** The requests for which identity, server and grant are looked up. */
  predicate Consults(r: Request, c: Settings) {
    && r.size <= c.maxBody && r.body.Message?
    && (r.body.name == Some("initialize")
        || (Modern(r)
            && (r.body.name == Some("server/discover") || ModernVersion(r) == Some(MODERN_PROTOCOL_VERSION))
            && (Present(r.headerMethod).None? || r.headerMethod == r.body.name)
            && !(r.body.name.Some? && StartsWith(r.body.name.value, "notifications/"))))
  }

  /** The dispatch does not look identity up on every call. The answer is the same whoever calls, for exactly the
      other requests; all legacy lists and calls are among them, since there the session stands in for the caller. */
  lemma IdentityConsultedExactly(ss: Sessions, now: real, r: Request, uuid: string, c: Settings)
    ensures (forall a, b :: Post(ss, now, r, a, uuid, c) == Post(ss, now, r, b, uuid, c)) <==> !Consults(r, c)
    ensures Consults(r, c) ==> r.body.name == Some("initialize") || Modern(r)
  {
    hide Less, HandleLegacy;
    if Consults(r, c) {
      var nobody := Access(None, false, false);
      var somebody := Access(Some(Principal("api_key", "id")), true, true);
      assert Post(ss, now, r, nobody, uuid, c).outcome == Error(401, INVALID_REQUEST);
      assert Post(ss, now, r, somebody, uuid, c).outcome != Error(401, INVALID_REQUEST);
    }
  }

  /** A delete answers the same whatever the registry holds, so it tells nobody whether a session exists. It removes the
      named session if that is live and the caller's own, in this virtual server; an expired entry under that key goes
      too, and nothing else does. */
  lemma DeleteTellsNothing(one: Sessions, other: Sessions, now: real, tenant: nat, vserver: string,
                           header: Option<string>, a: Access)
    ensures Delete(one, now, tenant, vserver, header, a).outcome
         == Delete(other, now, tenant, vserver, header, a).outcome
    ensures var outcome := Delete(one, now, tenant, vserver, header, a).outcome;
            && (outcome == Empty(204) <==> header in {None, Some("")} || FullAccess(a))
            && (outcome == Empty(401) <==> header !in {None, Some("")} && a.identity.None?)
            && (outcome == Empty(404) <==> header !in {None, Some("")} && a.identity.Some? && !a.serverExists)
            && (outcome == Empty(403) <==>
                  header !in {None, Some("")} && a.identity.Some? && a.serverExists && !a.granted)
    ensures var t := Delete(one, now, tenant, vserver, header, a).sessions;
            forall key ::
              && (key in t ==> key in one && t[key] == one[key])
              && (key in one && key !in t ==>
                    && Present(header).Some? && key == (tenant, header.value)
                    && a.identity.Some? && a.serverExists && a.granted
                    && (Expired(one[key], now)
                        || (one[key].vserver == vserver && one[key].principal == a.identity.value)))
    ensures Present(header).Some? && a.identity.Some? && a.serverExists && a.granted
              && (tenant, header.value) in one && one[(tenant, header.value)].vserver == vserver
              && one[(tenant, header.value)].principal == a.identity.value
            ==> (tenant, header.value) !in Delete(one, now, tenant, vserver, header, a).sessions
    ensures Present(header).Some? && FullAccess(a)
              && (tenant, header.value) in one && one[(tenant, header.value)].expiresAt <= now
            ==> (tenant, header.value) !in Delete(one, now, tenant, vserver, header, a).sessions
  {
  }

  // --- Whole runs --------------------------------------------------------------------------

  /** `used` holds the session ids drawn so far: a uuid is never drawn twice. Only the handshake draws one that is
      kept. */
  datatype State = State(now: real, sessions: Sessions, used: set<string>)

  datatype Event =
    | Tick(seconds: real)
    | Posts(request: Request, access: Access, uuid: string)
    | Deletes(tenant: nat, vserver: string, header: Option<string>, access: Access)

  predicate Handshake(r: Request) {
    r.body.Message? && r.body.name == Some("initialize")
  }

  function Step(s: State, e: Event, c: Settings): State {
    match e
    case Tick(seconds) => if seconds >= 0.0 then s.(now := s.now + seconds) else s
    case Posts(r, a, uuid) =>
      if Handshake(r) && uuid in s.used then s
      else s.(sessions := Post(s.sessions, s.now, r, a, uuid, c).sessions,
              used := if Handshake(r) then s.used + {uuid} else s.used)
    case Deletes(tenant, vserver, header, a) =>
      s.(sessions := Delete(s.sessions, s.now, tenant, vserver, header, a).sessions)
  }

  function Run(s: State, es: seq<Event>, c: Settings): State {
    if es == [] then s else Step(Run(s, es[..|es| - 1], c), es[|es| - 1], c)
  }

  /** This step is the initialize call that minted the session: its bearer resolved to the session's principal, and the
      virtual server existed and was granted. */
  predicate Mints(s: State, e: Event, session: Session, c: Settings) {
    && e.Posts? && e.request.size <= c.maxBody && Handshake(e.request)
    && e.access.identity == Some(session.principal) && e.access.serverExists && e.access.granted
    && e.uuid == session.sid && e.uuid !in s.used
    && session.tenant == e.request.tenant && session.vserver == e.request.vserver
    && session.expiresAt == s.now + c.sessionTtl
  }

  /** Where a session in the registry comes from: it was there, or this step minted it. */
  lemma StepOrigin(s: State, e: Event, key: Key, c: Settings)
    requires key in Step(s, e, c).sessions
    ensures var session := Step(s, e, c).sessions[key];
            (key in s.sessions && session == s.sessions[key])
            || (Mints(s, e, session, c) && key == (session.tenant, session.sid))
  {
  }

  /** In every run every stored session was minted by some initialize call of that run. */
  lemma {:induction false} SessionsAreMinted(s: State, es: seq<Event>, key: Key, c: Settings)
    requires s.sessions == map[] && key in Run(s, es, c).sessions
    ensures exists i :: 0 <= i < |es| && Mints(Run(s, es[..i], c), es[i], Run(s, es, c).sessions[key], c)
    ensures key == (Run(s, es, c).sessions[key].tenant, Run(s, es, c).sessions[key].sid)
    decreases |es|
  {
    hide Step, Mints;
    var n := |es| - 1;
    var before := Run(s, es[..n], c);
    StepOrigin(before, es[n], key, c);
    if key in before.sessions && before.sessions[key] == Run(s, es, c).sessions[key] {
      SessionsAreMinted(s, es[..n], key, c);
      var i :| 0 <= i < n && Mints(Run(s, es[..n][..i], c), es[..n][i], before.sessions[key], c);
      assert es[..n][..i] == es[..i];
    }
  }

  /** So a legacy tool call or listing that is served in any run is backed by an initialize call for the same tenant and
      virtual server, made less than the session lifetime ago. */
  lemma LegacyCallsAreBacked(s: State, es: seq<Event>, r: Request, a: Access, uuid: string, c: Settings)
    requires s.sessions == map[] && !Modern(r)
    requires var t := Run(s, es, c); var outcome := Post(t.sessions, t.now, r, a, uuid, c).outcome;
             outcome.CallsTool? || outcome.ListsTools?
    ensures exists i, session ::
              && 0 <= i < |es| && Mints(Run(s, es[..i], c), es[i], session, c)
              && session.tenant == r.tenant && session.vserver == r.vserver && Some(session.sid) == r.headerSession
              && Run(s, es, c).now < Run(s, es[..i], c).now + c.sessionTtl
  {
    hide Post, Run, Step;
    var t := Run(s, es, c);
    LegacyDispatchExactly(t.sessions, t.now, r, a, uuid, c);
    assert InSession(t.sessions, t.now, r);
    var key := (r.tenant, r.headerSession.value);
    SessionsAreMinted(s, es, key, c);
    var i :| 0 <= i < |es| && Mints(Run(s, es[..i], c), es[i], t.sessions[key], c);
  }

  /** The one step that may end a live session: its own principal's delete in its own virtual server. */
  predicate OwnDelete(e: Event, session: Session) {
    && e.Deletes? && e.header == Some(session.sid) && e.tenant == session.tenant && e.vserver == session.vserver
    && e.access.identity == Some(session.principal) && e.access.serverExists && e.access.granted
  }

  /** Stored under its own key, with an id that will not be drawn again. */
  predicate Stored(s: State, session: Session) {
    && (session.tenant, session.sid) in s.sessions && s.sessions[(session.tenant, session.sid)] == session
    && session.sid in s.used
  }

  /** A session is stored by the very step that mints it, and nothing but such a step stores one. */
  lemma MintStores(s: State, e: Event, session: Session, c: Settings)
    ensures Mints(s, e, session, c) ==> Stored(Step(s, e, c), session)
    ensures (session.tenant, session.sid) !in s.sessions && Stored(Step(s, e, c), session) ==> Mints(s, e, session, c)
  {
    if (session.tenant, session.sid) in Step(s, e, c).sessions {
      StepOrigin(s, e, (session.tenant, session.sid), c);
    }
  }

  /** A live session ends in a step exactly when that is its own principal's delete; one that names the empty id
      names no session. */
  lemma StepKeepsSession(s: State, e: Event, session: Session, c: Settings)
    requires Stored(s, session) && s.now < session.expiresAt
    ensures !OwnDelete(e, session) ==> Stored(Step(s, e, c), session)
    ensures OwnDelete(e, session) && session.sid != "" ==>
      (session.tenant, session.sid) !in Step(s, e, c).sessions
  {
  }

  lemma RunOfTwo(s: State, e: Event, f: Event, c: Settings)
    ensures Run(s, [e, f], c) == Step(Step(s, e, c), f, c)
  {
    hide Step;
    assert [e, f][..1] == [e] && [e][..0] == [];
    assert Run(s, [e], c) == Step(Run(s, [], c), e, c);
  }

  /** Whoever initializes is served in that session until the lifetime is over, and not a moment longer. */
  lemma HandshakeServesForItsLifetime(s: State, r: Request, a: Access, uuid: string, wait: real, later: Request,
                                      c: Settings)
    requires Asks(r, c, "initialize") && FullAccess(a) && uuid !in s.used && uuid != "" && wait >= 0.0
    requires later.tenant == r.tenant && later.vserver == r.vserver && later.headerSession == Some(uuid)
    ensures var t := Run(s, [Posts(r, a, uuid), Tick(wait)], c);
            && t.now == s.now + wait
            && (InSession(t.sessions, t.now, later) <==> wait < c.sessionTtl)
            && (r.tenant, uuid) in t.sessions && t.sessions[(r.tenant, uuid)].principal == a.identity.value
  {
    RunOfTwo(s, Posts(r, a, uuid), Tick(wait), c);
  }

  /** A session outlives every run in which its owner does not delete it, until it expires: no other request, in either
      era, by anyone, can end it. */
  lemma {:induction false} SessionSurvives(s: State, es: seq<Event>, session: Session, c: Settings)
    requires Stored(s, session) && Run(s, es, c).now < session.expiresAt
    requires forall i :: 0 <= i < |es| ==> !OwnDelete(es[i], session)
    ensures Stored(Run(s, es, c), session)
    decreases |es|
  {
    hide Step, OwnDelete, Stored;
    if es != [] {
      var n := |es| - 1;
      TimeGrows(Run(s, es[..n], c), es[n], c);
      SessionSurvives(s, es[..n], session, c);
      StepKeepsSession(Run(s, es[..n], c), es[n], session, c);
    }
  }

  lemma TimeGrows(s: State, e: Event, c: Settings)
    ensures s.now <= Step(s, e, c).now
  {
    hide Post, Delete;
  }

  /** Both together: whoever initializes keeps the session until it expires or is deleted by its own principal. */
  lemma MintedSessionSurvives(s: State, e: Event, es: seq<Event>, session: Session, c: Settings)
    requires Mints(s, e, session, c) && Run(Step(s, e, c), es, c).now < s.now + c.sessionTtl
    requires forall i :: 0 <= i < |es| ==> !OwnDelete(es[i], session)
    ensures Stored(Run(Step(s, e, c), es, c), session)
  {
    hide Step, OwnDelete, Stored;
    MintStores(s, e, session, c);
    SessionSurvives(Step(s, e, c), es, session, c);
  }

  function WithoutModern(es: seq<Event>): seq<Event> {
    if es == [] then []
    else
      var (front, last) := (WithoutModern(es[..|es| - 1]), es[|es| - 1]);
      if last.Posts? && Modern(last.request) then front else front + [last]
  }

  /** The modern era leaves no trace in the legacy one: without its modern requests a run ends in the same state, so
      every later legacy request and every delete is answered alike. */
  lemma {:induction false} ModernLeavesNoTrace(s: State, es: seq<Event>, c: Settings)
    ensures Run(s, WithoutModern(es), c) == Run(s, es, c)
    ensures forall e :: e in WithoutModern(es) ==> e in es && !(e.Posts? && Modern(e.request))
    decreases |es|
  {
    hide Modern, Step;
    if es != [] {
      var (n, last) := (|es| - 1, es[|es| - 1]);
      ModernLeavesNoTrace(s, es[..n], c);
      if last.Posts? && Modern(last.request) {
        ModernStepIsIdle(Run(s, es[..n], c), last, c);
      } else {
        assert (WithoutModern(es[..n]) + [last])[..|WithoutModern(es[..n])|] == WithoutModern(es[..n]);
      }
    }
  }

  lemma ModernStepIsIdle(s: State, e: Event, c: Settings)
    requires e.Posts? && Modern(e.request)
    ensures Step(s, e, c) == s
  {
    hide Less;
    ModernIsStateless(s.sessions, s.sessions, s.now, e.request, e.access, e.uuid, c);
  }
}
