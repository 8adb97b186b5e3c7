/** The per-tenant inflight gate (api/inflight_gate.py). On the event loop a request runs without interruption from its
    arrival to the downstream call, and again from the end of that call, however it ends, to the release. */
module InflightGate {
  import opened Options

  type Tenant = nat

  // --- Requests --------------------------------------------------------------------

  datatype Scope = Scope(isHttp: bool, path: string, headers: seq<(string, string)>)

  const LIVENESS_PATH := "/healthz"
  const DEEP_HEALTH_PATH := "/api/v1/health"
  const TENANT_HEADER := "x-vyuu-tenant-id"

  predicate HexOrDash(c: char) {
    '0' <= c <= '9' || 'a' <= c <= 'f' || 'A' <= c <= 'F' || c == '-'
  }

  function DropLast(text: string, c: char): string {
    if text != "" && text[|text| - 1] == c then text[..|text| - 1] else text
  }

  /** `/v/`, 36 hexadecimal digits or dashes, one path segment, `/mcp`, and at most one slash; the pattern's `$` also
      lets one newline follow. */
  predicate IsMcpPath(path: string) {
    var p := DropLast(DropLast(path, '\n'), '/');
    && |p| > 44 && p[..3] == "/v/" && p[39] == '/' && p[|p| - 4..] == "/mcp"
    && (forall i :: 3 <= i < 39 ==> HexOrDash(p[i]))
    && (forall i :: 40 <= i < |p| - 4 ==> p[i] != '/')
  }

  function FirstHeader(headers: seq<(string, string)>): Option<string> {
    if headers == [] then None
    else if headers[0].0 == TENANT_HEADER then Some(headers[0].1)
    else FirstHeader(headers[1..])
  }

  /** `parse` reads a UUID text. A path that matches decides alone: the header is not consulted when its UUID is bad. */
  function ExtractTenant(scope: Scope, parse: string -> Option<Tenant>): Option<Tenant> {
    if IsMcpPath(scope.path) then parse(scope.path[3..39])
    else
      match FirstHeader(scope.headers)
      case None => None
      case Some(text) => parse(text)
  }

  /** The tenant whose limit a request counts against, if any. */
  function GatedTenant(scope: Scope, parse: string -> Option<Tenant>): Option<Tenant> {
    if !scope.isHttp || scope.path == LIVENESS_PATH || scope.path == DEEP_HEALTH_PATH then None
    else ExtractTenant(scope, parse)
  }

  predicate Hexadecimal(text: string) {
    forall i :: 0 <= i < |text| ==> text[i] in "0123456789abcdefABCDEF-"
  }

  /** A path put together from a tenant, a virtual server and an ending. */
  ghost predicate McpPath(path: string, tenant: string, vserver: string, ending: string) {
    && |tenant| == 36 && Hexadecimal(tenant) && vserver != "" && '/' !in vserver
    && ending in {"", "/", "\n", "/\n"}
    && path == "/v/" + tenant + "/" + vserver + "/mcp" + ending
  }

  lemma WithoutEnding(stem: string, ending: string)
    requires stem != "" && stem[|stem| - 1] == 'p' && ending in {"", "/", "\n", "/\n"}
    ensures DropLast(DropLast(stem + ending, '\n'), '/') == stem
  {
    assert stem + "" == stem;
    assert stem + "/\n" == stem + "/" + "\n";
    assert (stem + "/")[..|stem|] == stem && (stem + "\n")[..|stem|] == stem;
    assert (stem + "/" + "\n")[..|stem| + 1] == stem + "/";
  }

  /** What is dropped from the end of a path. */
  lemma Ending(path: string) returns (ending: string)
    ensures ending in {"", "/", "\n", "/\n"}
    ensures path == DropLast(DropLast(path, '\n'), '/') + ending
  {
    var line := DropLast(path, '\n');
    var stem := DropLast(line, '/');
    var (slash, newline) := (if line == stem then "" else "/", if path == line then "" else "\n");
    ending := slash + newline;
    assert "/" + "\n" == "/\n" && "" + "\n" == "\n";
    Dropped(path, '\n');
    Dropped(line, '/');
    assert path == stem + ending;
  }

  lemma Dropped(text: string, c: char)
    ensures DropLast(text, c) == text || text == DropLast(text, c) + [c]
  {
  }

  lemma McpPathMatches(path: string, tenant: string, vserver: string, ending: string)
    requires McpPath(path, tenant, vserver, ending)
    ensures IsMcpPath(path) && |path| >= 39 && path[3..39] == tenant
  {
    var stem := "/v/" + tenant + "/" + vserver + "/mcp";
    WithoutEnding(stem, ending);
    assert path == stem + ending;
    assert stem[40..|stem| - 4] == vserver && path[3..39] == stem[3..39] == tenant;
    assert forall i :: 3 <= i < 39 ==> stem[i] == tenant[i - 3];
    assert forall i :: 40 <= i < |stem| - 4 ==> stem[i] == vserver[i - 40];
    assert forall i :: 0 <= i < 36 ==> tenant[i] in "0123456789abcdefABCDEF-" && HexOrDash(tenant[i]);
  }

  lemma MatchIsMcpPath(path: string)
    requires IsMcpPath(path)
    ensures exists tenant, vserver, ending :: McpPath(path, tenant, vserver, ending)
  {
    var ending := Ending(path);
    var p := DropLast(DropLast(path, '\n'), '/');
    var (tenant, vserver) := (p[3..39], p[40..|p| - 4]);
    assert p == "/v/" + tenant + "/" + vserver + "/mcp";
    assert Hexadecimal(tenant) by {
      forall i | 0 <= i < 36 ensures tenant[i] in "0123456789abcdefABCDEF-" {
        assert HexOrDash(p[i + 3]);
        HexDigit(tenant[i]);
      }
    }
    assert McpPath(path, tenant, vserver, ending);
  }

  lemma HexDigit(c: char)
    requires HexOrDash(c)
    ensures c in "0123456789abcdefABCDEF-"
  {
    var s := "0123456789abcdefABCDEF-";
    if '0' <= c <= '9' {
      assert s[c as int - '0' as int] == c;
    } else if 'a' <= c <= 'f' {
      assert s[c as int - 'a' as int + 10] == c;
    } else if 'A' <= c <= 'F' {
      assert s[c as int - 'A' as int + 16] == c;
    } else {
      assert s[22] == c;
    }
  }

  /** The paths of the inbound endpoint, as they are put together, are the ones that match. */
  lemma McpPathExactly(path: string)
    ensures IsMcpPath(path) <==> exists tenant, vserver, ending :: McpPath(path, tenant, vserver, ending)
  {
    hide IsMcpPath, McpPath;
    if tenant, vserver, ending :| McpPath(path, tenant, vserver, ending) {
      McpPathMatches(path, tenant, vserver, ending);
    }
    if IsMcpPath(path) {
      MatchIsMcpPath(path);
    }
  }

  predicate IsTenantHeader(header: (string, string)) {
    header.0 == "x-vyuu-tenant-id"
  }

  predicate FirstTenantHeader(headers: seq<(string, string)>, i: nat) {
    i < |headers| && IsTenantHeader(headers[i]) && forall j :: 0 <= j < i ==> !IsTenantHeader(headers[j])
  }

  lemma {:induction false} FirstHeaderExactly(headers: seq<(string, string)>, i: nat)
    requires FirstTenantHeader(headers, i)
    ensures FirstHeader(headers) == Some(headers[i].1)
  {
    if i > 0 { FirstHeaderExactly(headers[1..], i - 1); }
  }

  lemma {:induction false} NoHeader(headers: seq<(string, string)>)
    requires forall j :: 0 <= j < |headers| ==> !IsTenantHeader(headers[j])
    ensures FirstHeader(headers) == None
  {
    if headers != [] { NoHeader(headers[1..]); }
  }

  predicate Exempt(scope: Scope) {
    !scope.isHttp || scope.path in {"/healthz", "/api/v1/health"}
  }

  /** Which tenant a request counts against. The two health paths and other protocols are never gated. A path of the
      inbound endpoint decides alone, whatever the headers say; otherwise the first tenant header does. */
  lemma GatedTenantExactly(scope: Scope, parse: string -> Option<Tenant>)
    ensures Exempt(scope) ==> GatedTenant(scope, parse) == None
    ensures forall tenant, vserver, ending :: McpPath(scope.path, tenant, vserver, ending) && !Exempt(scope) ==>
              GatedTenant(scope, parse) == parse(tenant)
    ensures !IsMcpPath(scope.path) && !Exempt(scope) ==>
      && (forall i: nat :: FirstTenantHeader(scope.headers, i) ==>
            GatedTenant(scope, parse) == parse(scope.headers[i].1))
      && ((forall j :: 0 <= j < |scope.headers| ==> !IsTenantHeader(scope.headers[j])) ==>
            GatedTenant(scope, parse) == None)
  {
    hide IsMcpPath, McpPath;
    forall tenant, vserver, ending | McpPath(scope.path, tenant, vserver, ending)
      ensures IsMcpPath(scope.path) && |scope.path| >= 39 && scope.path[3..39] == tenant
    {
      McpPathMatches(scope.path, tenant, vserver, ending);
    }
    forall i: nat | FirstTenantHeader(scope.headers, i)
      ensures FirstHeader(scope.headers) == Some(scope.headers[i].1)
    {
      FirstHeaderExactly(scope.headers, i);
    }
    if forall j :: 0 <= j < |scope.headers| ==> !IsTenantHeader(scope.headers[j]) {
      NoHeader(scope.headers);
    }
  }

  datatype Decision = Bypassed | Admitted(tenant: Tenant) | Rejected(tenant: Tenant)

  // --- The gate as a specification -----------------------------------------------------

  /** The admitted requests that have not ended, with the tenant each counts against. */
  type Running = map<nat, Tenant>

  function Holders(running: Running, t: Tenant): set<nat> {
    set id | id in running && running[id] == t
  }

  function Inflight(running: Running, t: Tenant): nat {
    |Holders(running, t)|
  }

  /** 503 if and only if the request's own tenant holds as many calls as the limit allows. */
  function Decide(running: Running, limit: nat, tenant: Option<Tenant>): Decision {
    match tenant
    case None => Bypassed
    case Some(t) => if Inflight(running, t) >= limit then Rejected(t) else Admitted(t)
  }

  function Start(running: Running, id: nat, d: Decision): Running {
    if d.Admitted? then running[id := d.tenant] else running
  }

  lemma OneMore(running: Running, id: nat, t: Tenant)
    requires id !in running
    ensures forall u :: Inflight(running[id := t], u) == Inflight(running, u) + if u == t then 1 else 0
  {
    forall u ensures Inflight(running[id := t], u) == Inflight(running, u) + if u == t then 1 else 0 {
      HoldersAfterStart(running, id, t, u);
    }
  }

  lemma HoldersAfterStart(running: Running, id: nat, t: Tenant, u: Tenant)
    requires id !in running
    ensures Holders(running[id := t], u) == Holders(running, u) + if u == t then {id} else {}
    ensures id !in Holders(running, u)
  {
  }

  lemma OneLess(running: Running, id: nat)
    requires id in running
    ensures forall u :: Inflight(running, u) == Inflight(running - {id}, u) + if u == running[id] then 1 else 0
  {
    forall u ensures Inflight(running, u) == Inflight(running - {id}, u) + if u == running[id] then 1 else 0 {
      assert Holders(running, u) == Holders(running - {id}, u) + if u == running[id] then {id} else {};
    }
  }

  // --- The gate as the program has it ----------------------------------------------------

  /** The counting semaphore of the event loop. */
  class Semaphore {
    var value: nat
    var waiters: nat

    constructor (limit: nat)
      ensures value == limit && waiters == 0
    {
      value, waiters := limit, 0;
    }

    predicate Locked()
      reads this
    {
      value == 0 || waiters > 0
    }

    method Acquire() returns (immediately: bool)
      modifies this
      ensures immediately <==> !old(Locked())
      ensures immediately ==> value == old(value) - 1 && waiters == old(waiters)
      ensures !immediately ==> value == old(value) && waiters == old(waiters) + 1
    {
      immediately := !Locked();
      if immediately {
        value := value - 1;
      } else {
        waiters := waiters + 1;
      }
    }

    method Release()
      modifies this
      ensures if old(waiters) > 0 then value == old(value) && waiters == old(waiters) - 1
              else value == old(value) + 1 && waiters == 0
    {
      if waiters > 0 {
        waiters := waiters - 1;
      } else {
        value := value + 1;
      }
    }
  }

  class PerTenantInflightGate {
    const limit: nat
    const parse: string -> Option<Tenant>
    var semaphores: map<Tenant, Semaphore>
    ghost var running: Running

    /** Free slots and held slots add up to the limit, nobody queues, and no two tenants share a semaphore. */
    ghost predicate Valid()
      reads this, semaphores.Values
    {
      && limit >= 1
      && (forall t :: t in semaphores ==>
           semaphores[t].waiters == 0 && semaphores[t].value + Inflight(running, t) == limit)
      && (forall t :: t !in semaphores ==> Inflight(running, t) == 0)
      && (forall t, u :: t in semaphores && u in semaphores && t != u ==> semaphores[t] != semaphores[u])
    }

    constructor (perTenantLimit: nat, parse: string -> Option<Tenant>)
      requires perTenantLimit >= 1
      ensures Valid() && fresh(semaphores.Values)
      ensures limit == perTenantLimit && this.parse == parse && running == map[]
    {
      limit, this.parse := perTenantLimit, parse;
      semaphores, running := map[], map[];
      new;
      assert forall t :: Holders(running, t) == {};
    }

    /** One semaphore a tenant, made on its first request. */
    method SemaphoreFor(t: Tenant) returns (sem: Semaphore)
      requires Valid()
      modifies this`semaphores
      ensures Valid() && fresh(semaphores.Values - old(semaphores.Values))
      ensures t in semaphores && semaphores[t] == sem && sem in semaphores.Values
    {
      if t !in semaphores {
        var created := new Semaphore(limit);
        semaphores := semaphores[t := created];
      }
      sem := semaphores[t];
    }

    /** From arrival to the downstream call, or to the 503. The acquire never waits. */
    method Arrive(ghost id: nat, scope: Scope) returns (d: Decision)
      requires Valid() && id !in running
      modifies this, semaphores.Values
      ensures Valid() && fresh(semaphores.Values - old(semaphores.Values))
      ensures d == Decide(old(running), limit, GatedTenant(scope, parse))
      ensures running == Start(old(running), id, d)
    {
      var tenant := GatedTenant(scope, parse);
      if tenant.None? {
        return Bypassed;
      }
      var sem := SemaphoreFor(tenant.value);
      if sem.Locked() {
        return Rejected(tenant.value);
      }
      OneMore(running, id, tenant.value);
      var immediately := sem.Acquire();
      running := running[id := tenant.value];
      d := Admitted(tenant.value);
      assert immediately;
    }

    /** The `finally` after the downstream call of an admitted request. */
    method Depart(ghost id: nat, t: Tenant)
      requires Valid() && id in running && running[id] == t
      modifies this, semaphores.Values
      ensures Valid() && semaphores == old(semaphores)
      ensures running == old(running) - {id}
    {
      OneLess(running, id);
      assert t in semaphores && semaphores[t] in semaphores.Values;
      assert forall u :: u in semaphores ==> semaphores[u] in semaphores.Values;
      semaphores[t].Release();
      running := running - {id};
    }
  }

  /** A limit below one is refused when the application is built. */
  method MakeGate(perTenantLimit: int, parse: string -> Option<Tenant>) returns (gate: PerTenantInflightGate?)
    ensures gate == null <==> perTenantLimit < 1
    ensures gate != null ==> fresh(gate) && gate.Valid() && gate.limit == perTenantLimit && gate.running == map[]
  {
    if perTenantLimit < 1 {
      return null;
    }
    gate := new PerTenantInflightGate(perTenantLimit, parse);
  }

  // --- Whole runs -------------------------------------------------------------------------

  datatype Event = Arrives(id: nat, tenant: Option<Tenant>) | Ends(id: nat)

  predicate Enabled(running: Running, e: Event) {
    match e
    case Arrives(id, _) => id !in running
    case Ends(id) => id in running
  }

  function Next(running: Running, limit: nat, e: Event): Running {
    match e
    case Arrives(id, tenant) => Start(running, id, Decide(running, limit, tenant))
    case Ends(id) => running - {id}
  }

  function RunAll(running: Running, limit: nat, es: seq<Event>): Running
    decreases |es|
  {
    if es == [] then running else RunAll(Next(running, limit, es[0]), limit, es[1..])
  }

  ghost predicate WithinLimit(running: Running, limit: nat) {
    forall t :: Inflight(running, t) <= limit
  }

  /** No tenant ever holds more than the limit, not even one call more. */
  lemma {:induction false} InflightNeverExceeds(running: Running, limit: nat, es: seq<Event>)
    requires WithinLimit(running, limit) && Feasible(running, limit, es)
    ensures WithinLimit(RunAll(running, limit, es), limit)
    decreases |es|
  {
    if es != [] {
      StepKeepsLimit(running, limit, es[0]);
      InflightNeverExceeds(Next(running, limit, es[0]), limit, es[1..]);
    }
  }

  lemma StepKeepsLimit(running: Running, limit: nat, e: Event)
    requires WithinLimit(running, limit) && Enabled(running, e)
    ensures WithinLimit(Next(running, limit, e), limit)
  {
    if e.Arrives? && Decide(running, limit, e.tenant).Admitted? {
      OneMore(running, e.id, e.tenant.value);
    } else if e.Ends? {
      OneLess(running, e.id);
    }
    forall t ensures Inflight(Next(running, limit, e), t) <= limit {
      assert Inflight(running, t) <= limit;
    }
  }

  /** n requests of one tenant, one after the other, none of which ends. */
  function Burst(t: Tenant, n: nat): seq<Event> {
    if n == 0 then [] else Burst(t, n - 1) + [Arrives(n - 1, Some(t))]
  }

  lemma {:induction false} RunAllAppend(running: Running, limit: nat, es: seq<Event>, e: Event)
    ensures RunAll(running, limit, es + [e]) == Next(RunAll(running, limit, es), limit, e)
    decreases |es|
  {
    if es == [] {
      assert [e][1..] == [];
    } else {
      assert (es + [e])[1..] == es[1..] + [e];
      RunAllAppend(Next(running, limit, es[0]), limit, es[1..], e);
    }
  }

  /** Of a burst exactly the first `limit` requests are admitted, and the end of any admitted one lets exactly one more
      in. */
  lemma {:induction false} BurstFillsTheLimit(t: Tenant, n: nat, limit: nat)
    ensures var running := RunAll(map[], limit, Burst(t, n));
            forall id: nat :: (id in running <==> id < n && id < limit) && (id in running ==> running[id] == t)
    ensures Inflight(RunAll(map[], limit, Burst(t, n)), t) == if n < limit then n else limit
  {
    if n > 0 {
      BurstFillsTheLimit(t, n - 1, limit);
      RunAllAppend(map[], limit, Burst(t, n - 1), Arrives(n - 1, Some(t)));
      var running := RunAll(map[], limit, Burst(t, n - 1));
      OneMore(running, n - 1, t);
    } else {
      assert Holders(map[], t) == {};
    }
  }

  lemma FreedSlotIsUsed(running: Running, limit: nat, t: Tenant, ended: nat, next: nat, further: nat)
    requires Inflight(running, t) == limit && ended in running && running[ended] == t
    requires next !in running && further !in running && next != further && next != ended
    ensures var after := RunAll(running, limit, [Ends(ended), Arrives(next, Some(t)), Arrives(further, Some(t))]);
            after == (running - {ended})[next := t]
  {
    OneLess(running, ended);
    OneMore(running - {ended}, next, t);
    var (e1, e2, e3) := (Ends(ended), Arrives(next, Some(t)), Arrives(further, Some(t)));
    RunAllAppend(running, limit, [], e1);
    RunAllAppend(running, limit, [e1], e2);
    RunAllAppend(running, limit, [e1, e2], e3);
    assert [] + [e1] == [e1] && [e1] + [e2] == [e1, e2] && [e1, e2] + [e3] == [e1, e2, e3];
  }

  /** Requests have distinct names and end once, after they were admitted. */
  predicate Feasible(running: Running, limit: nat, es: seq<Event>)
    decreases |es|
  {
    es == [] || (Enabled(running, es[0]) && Feasible(Next(running, limit, es[0]), limit, es[1..]))
  }

  /** The decisions on one tenant's requests, in order. */
  function DecisionsFor(t: Tenant, running: Running, limit: nat, es: seq<Event>): seq<Decision>
    decreases |es|
  {
    if es == [] then []
    else
      (if es[0].Arrives? && es[0].tenant == Some(t) then [Decide(running, limit, es[0].tenant)] else [])
      + DecisionsFor(t, Next(running, limit, es[0]), limit, es[1..])
  }

  predicate Concerns(t: Tenant, running: Running, e: Event) {
    match e
    case Arrives(_, tenant) => tenant == Some(t)
    case Ends(id) => id in running && running[id] == t
  }

  /** Every arrival is decided in the state that the events before it have left. */
  lemma {:induction false} DecidedInOrder(t: Tenant, running: Running, limit: nat, es: seq<Event>, e: Event)
    ensures DecisionsFor(t, running, limit, es + [e])
         == DecisionsFor(t, running, limit, es)
            + if e.Arrives? && e.tenant == Some(t) then [Decide(RunAll(running, limit, es), limit, Some(t))] else []
    decreases |es|
  {
    hide Next, Decide;
    if es == [] {
      assert [] + [e] == [e] && [e][1..] == [];
    } else {
      var next := Next(running, limit, es[0]);
      assert (es + [e])[1..] == es[1..] + [e];
      DecidedInOrder(t, next, limit, es[1..], e);
      assert RunAll(running, limit, es) == RunAll(next, limit, es[1..]);
    }
  }

  /** The arrivals of one tenant's requests and the ends of those it admitted. */
  function OnlyTenant(t: Tenant, running: Running, limit: nat, es: seq<Event>): seq<Event>
    decreases |es|
  {
    if es == [] then []
    else
      (if Concerns(t, running, es[0]) then [es[0]] else []) + OnlyTenant(t, Next(running, limit, es[0]), limit, es[1..])
  }

  function Restricted(running: Running, t: Tenant): Running {
    map id | id in running && running[id] == t :: t
  }

  /** No tenant affects another: each tenant's requests are decided as if every other request, gated or not, had never
      arrived. */
  lemma {:induction false} TenantsAreIndependent(t: Tenant, running: Running, limit: nat, es: seq<Event>)
    requires Feasible(running, limit, es)
    ensures DecisionsFor(t, running, limit, es)
         == DecisionsFor(t, Restricted(running, t), limit, OnlyTenant(t, running, limit, es))
    ensures Restricted(RunAll(running, limit, es), t)
         == RunAll(Restricted(running, t), limit, OnlyTenant(t, running, limit, es))
    decreases |es|
  {
    if es != [] {
      var e, next, mine := es[0], Next(running, limit, es[0]), Restricted(running, t);
      var later := OnlyTenant(t, next, limit, es[1..]);
      TenantsAreIndependent(t, next, limit, es[1..]);
      StepForTenant(t, running, limit, e);
      if Concerns(t, running, e) {
        assert ([e] + later)[1..] == later;
      } else {
        assert OnlyTenant(t, running, limit, es) == later;
      }
    }
  }

  /** A step that concerns `t` does the same to t's calls alone; any other step does nothing to them. */
  lemma StepForTenant(t: Tenant, running: Running, limit: nat, e: Event)
    requires Enabled(running, e)
    ensures Concerns(t, running, e) ==>
      Restricted(Next(running, limit, e), t) == Next(Restricted(running, t), limit, e)
    ensures Concerns(t, running, e) && e.Arrives? ==>
      Decide(running, limit, e.tenant) == Decide(Restricted(running, t), limit, e.tenant)
    ensures !Concerns(t, running, e) ==> Restricted(Next(running, limit, e), t) == Restricted(running, t)
  {
    assert Holders(running, t) == Holders(Restricted(running, t), t);
  }
}
