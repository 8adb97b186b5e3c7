/** The resource identifier of a virtual server in api/ema_oauth.py: printed into the metadata of RFC 9728, parsed again
    from the `resource` claim of an ID-JAG. */
module EmaResource {
  import opened Options
  import opened Text

  function RstripSlash(s: string): (r: string)
    ensures r <= s && (r != "" ==> r[|r| - 1] != '/')
    ensures forall i :: |r| <= i < |s| ==> s[i] == '/'
  {
    if s != "" && s[|s| - 1] == '/' then RstripSlash(s[..|s| - 1]) else s
  }

  function IssuerForTenant(base: string, tenant: string): string {
    RstripSlash(base) + "/v/" + tenant
  }

  /** The `resource` and `authorization_servers` of the metadata. */
  datatype Metadata = Metadata(resource: string, authorizationServers: seq<string>)

  function ResourceMetadata(base: string, tenant: string, name: string): Metadata {
    Metadata(RstripSlash(base) + "/v/" + tenant + "/" + name + "/mcp", [IssuerForTenant(base, tenant)])
  }

  function NameFromResource(resource: string, base: string, tenant: string): Option<string> {
    var prefix := RstripSlash(base) + "/v/" + tenant + "/";
    if !StartsWith(resource, prefix) then None
    else
      var remainder := resource[|prefix|..];
      if !EndsWith(remainder, "/mcp") then None
      else
        var name := remainder[..|remainder| - 4];
        if name == "" || '/' in name then None else Some(name)
  }

  predicate ValidName(name: string) {
    name != "" && '/' !in name
  }

  /** A resource parses to a name exactly when it is the one published for that name, and the name is valid. */
  lemma ParsesExactly(resource: string, base: string, tenant: string, name: string)
    ensures NameFromResource(resource, base, tenant) == Some(name)
       <==> ValidName(name) && resource == ResourceMetadata(base, tenant, name).resource
  {
    var prefix := RstripSlash(base) + "/v/" + tenant + "/";
    var printed := ResourceMetadata(base, tenant, name).resource;
    assert printed == prefix + (name + "/mcp");
    if resource == printed {
      var remainder := resource[|prefix|..];
      assert remainder == name + "/mcp";
      assert remainder[|remainder| - 4..] == "/mcp" && remainder[..|remainder| - 4] == name;
    }
    if NameFromResource(resource, base, tenant) == Some(name) {
      var remainder := resource[|prefix|..];
      assert remainder == remainder[..|remainder| - 4] + remainder[|remainder| - 4..] == name + "/mcp";
      assert resource == prefix + remainder;
    }
  }

  /** So publishing and parsing are inverse, and a name that is empty or has a slash can be published but not
      redeemed. */
  lemma RoundTripExactly(base: string, tenant: string, name: string)
    ensures NameFromResource(ResourceMetadata(base, tenant, name).resource, base, tenant)
         == if ValidName(name) then Some(name) else None
  {
    var resource := ResourceMetadata(base, tenant, name).resource;
    var prefix := RstripSlash(base) + "/v/" + tenant + "/";
    assert resource == prefix + (name + "/mcp");
    var remainder := resource[|prefix|..];
    assert remainder == name + "/mcp" && remainder[|remainder| - 4..] == "/mcp" && remainder[..|remainder| - 4] == name;
  }

  /** Texts that agree, split at their last slash. */
  lemma SplitAtLastSlash(a: string, b: string, x: string, y: string)
    requires a + "/" + x == b + "/" + y && '/' !in x && '/' !in y
    ensures a == b && x == y
  {
    var text := a + "/" + x;
    assert text == b + "/" + y;
    assert text[|a|] == '/' && text[|b|] == '/';
    assert forall i :: |a| < i < |text| ==> text[i] == x[i - |a| - 1];
    assert forall i :: |b| < i < |text| ==> text[i] == y[i - |b| - 1];
    assert |a| == |b|;
    assert a == text[..|a|] == b && x == text[|a| + 1..] == y;
  }

  /** No two virtual servers share an identifier, not even across tenants or gateways: it determines the origin, the
      tenant and the name. */
  lemma NoAliases(base: string, tenant: string, name: string, otherBase: string, otherTenant: string, otherName: string)
    requires '/' !in tenant && '/' !in otherTenant && ValidName(name) && ValidName(otherName)
    requires ResourceMetadata(base, tenant, name).resource
          == ResourceMetadata(otherBase, otherTenant, otherName).resource
    ensures RstripSlash(base) == RstripSlash(otherBase) && tenant == otherTenant && name == otherName
  {
    var (a, b) := (RstripSlash(base) + "/v", RstripSlash(otherBase) + "/v");
    var resource := ResourceMetadata(base, tenant, name).resource;
    var (c, d) := (a + "/" + tenant, b + "/" + otherTenant);
    assert resource == (c + "/" + name) + "/mcp" == (d + "/" + otherName) + "/mcp";
    assert c + "/" + name == resource[..|resource| - 4] == d + "/" + otherName;
    SplitAtLastSlash(c, d, name, otherName);
    SplitAtLastSlash(a, b, tenant, otherTenant);
    assert RstripSlash(base) == a[..|a| - 2] && RstripSlash(otherBase) == b[..|b| - 2];
  }

  /** The published resource lies under the published authorization server, and slashes at the end of the configured
      base URL change neither. */
  lemma {:induction false} ResourceUnderIssuer(base: string, tenant: string, name: string)
    ensures var m := ResourceMetadata(base, tenant, name);
            && m.authorizationServers == [IssuerForTenant(base, tenant)]
            && m.resource == m.authorizationServers[0] + "/" + name + "/mcp"
            && m == ResourceMetadata(base + "/", tenant, name)
  {
    assert (base + "/")[..|base|] == base;
  }
}
