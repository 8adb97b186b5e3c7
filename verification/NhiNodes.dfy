/** What the nodes of the graph show, told from their identifiers, and which event speaks for a node. */
module NhiNodes {
  import opened Options
  import opened Text
  import opened NhiMap

  // --- Applications ----------------------------------------------------------------------------

  predicate Given(field: Option<string>) {
    field.Some? && field.value != ""
  }

  /** Which of the three kinds of client an event comes from, exactly: an attested client id comes first, then a known
      user agent. */
  lemma ClientKindExactly(c: Context, e: Event)
    ensures var id := AppId(c, e);
            && (StartsWith(id, "idp:") <==> Given(e.clientId))
            && (StartsWith(id, "idp:") ==> id == "idp:" + e.clientId.value)
            && (StartsWith(id, "app:") <==>
                  !Given(e.clientId) && Given(e.userAgent) && c.known(e.userAgent.value).Some?)
            && (StartsWith(id, "app:") ==> id == "app:" + Lower(c.known(e.userAgent.value).value))
            && (StartsWith(id, "idp:") ==> AppNode(c, e).caption == e.clientId.value)
            && (StartsWith(id, "app:") ==> AppNode(c, e).caption == c.known(e.userAgent.value).value)
            && (!Given(e.clientId) && !Given(e.userAgent) ==>
                  id == "unknown:none" && AppNode(c, e).caption == "Unknown / no UA")
            && (AppNode(c, e).sanctioned <==> !StartsWith(id, "unknown:"))
            && AppNode(c, e).detail == e.userAgent
  {
    hide Lower, Short;
    assert AppId(c, e)[0] in {'i', 'a', 'u'};
  }

  /** An unknown user agent becomes a name of at most 48 characters, without blanks and upper-case letters. */
  lemma UnknownName(userAgent: string)
    ensures var (name, text) := (Short(userAgent), Strip(userAgent));
            && |name| == (if |text| < 48 then |text| else 48)
            && forall i :: 0 <= i < |name| ==>
                 name[i] == if text[i] == ' ' then '-'
                            else if 'A' <= text[i] <= 'Z' then (text[i] as int + 32) as char else text[i]
  {
    var text := Strip(userAgent);
    Lowered(Replace(if |text| > 48 then text[..48] else text, ' ', '-'));
  }

  lemma {:induction false} Lowered(s: string)
    ensures forall i :: 0 <= i < |s| ==> Lower(s)[i] == LowerChar(s[i])
  {
    if s != [] { Lowered(s[1..]); }
  }

  // --- What a node shows -------------------------------------------------------------------------

  /** Column, caption and detail that go with an identifier. */
  ghost predicate Fits(c: Context, n: Node) {
    match LayerOf(n.id)
    case User =>
      && n.column in {"user", "agent"} && n.sanctioned && n.detail.Some?
      && (n.id[5..] in c.emails ==> n.caption == c.emails[n.id[5..]])
    case App =>
      && n.column == "ai_app"
      && (|| n.id == "idp:" + n.caption || n.id == "app:" + Lower(n.caption)
          || (n.id == "unknown:" + n.caption && n.caption != "")
          || (n.id == "unknown:" && n.caption == "(empty)")
          || (n.id == "unknown:none" && n.caption == "Unknown / no UA"))
    case Server =>
      && n.column == "mcp_server" && n.detail == Some(n.id[4..])
      && n.caption == (if n.id[4..] in c.servers then c.servers[n.id[4..]]
                       else if |n.id[4..]| > 8 then n.id[4..][..8] else n.id[4..])
    case Tool =>
      n.column == "tool" && n.sanctioned && exists server :: ToolNodeOf(c, n, server)
    case RiskClass =>
      n.column == "risk" && n.sanctioned && n.caption == n.id[5..] && n.detail == Some("risk class · " + n.id[5..])
    case Unlayered => false
  }

  predicate ToolNodeOf(c: Context, n: Node, server: string) {
    && n.id == "tool:" + (server + (":" + n.caption))
    && var name := if server in c.servers then c.servers[server] else "";
       var shown := name + " · " + n.caption;
       n.detail == Some(if (server, n.caption) in c.risks && c.risks[(server, n.caption)] != ""
                        then shown + " · " + c.risks[(server, n.caption)] else shown)
  }

  lemma UserFits(c: Context, e: Event)
    ensures Fits(c, UserNode(c, e))
  {
    assert UserId(e)[5..] == e.principal;
  }

  lemma AppFits(c: Context, e: Event)
    ensures Fits(c, AppNode(c, e))
  {
    hide Lower, Short;
    assert AppId(c, e) == AppNode(c, e).id;
  }

  lemma ServerFits(c: Context, server: string)
    ensures Fits(c, ServerNode(c, server))
  {
    assert ServerId(server)[4..] == server;
  }

  lemma ToolFits(c: Context, server: string, tool: string)
    ensures Fits(c, ToolNode(c, server, tool))
  {
    var name := if server in c.servers then c.servers[server] else "";
    var risk := if (server, tool) in c.risks then c.risks[(server, tool)] else "";
    assert name + " · " + tool + "" == name + " · " + tool;
    assert name + " · " + tool + (" · " + risk) == name + " · " + tool + " · " + risk;
    assert ToolNodeOf(c, ToolNode(c, server, tool), server);
    assert LayerOf(ToolId(server, tool)) == Tool;
  }

  lemma RiskFits(c: Context, e: Event)
    requires e.server.Some?
    ensures Fits(c, RiskNode(c, e))
  {
    assert RiskId(c, e)[5..] == Risk(c, e.server.value, e.tool);
  }

  lemma EventNodesFit(c: Context, e: Event, j: nat)
    requires j < |EventNodes(c, e)|
    ensures Fits(c, EventNodes(c, e)[j])
  {
    hide Fits, UserNode, AppNode, ServerNode, ToolNode, RiskNode, Kept;
    UserFits(c, e);
    AppFits(c, e);
    if e.server.Some? {
      ServerFits(c, e.server.value);
      ToolFits(c, e.server.value, e.tool);
      RiskFits(c, e);
    }
  }

  // --- The event that speaks for a node --------------------------------------------------------------

  ghost predicate FirstMention(c: Context, events: seq<Event>, i: nat, j: nat, id: string) {
    && i < |events| && j < |EventNodes(c, events[i])| && EventNodes(c, events[i])[j].id == id
    && !MentionsNode(c, events[..i], id)
    && forall k :: 0 <= k < j ==> EventNodes(c, events[i])[k].id != id
  }

  lemma {:induction false} AddedFirst(c: Context, nodes: map<string, Node>, ns: seq<Node>, id: string)
    requires FlagsById(c, nodes) && id !in nodes && id in AddNodes(nodes, ns)
    requires forall j :: 0 <= j < |ns| ==> (ns[j].sanctioned <==> SanctionedId(c, ns[j].id))
    ensures exists j :: 0 <= j < |ns| && ns[j].id == id && AddNodes(nodes, ns)[id] == ns[j]
              && forall k :: 0 <= k < j ==> ns[k].id != id
  {
    hide SanctionedId;
    var n := |ns| - 1;
    AddNodesKeeps(c, nodes, ns[..n]);
    if id in AddNodes(nodes, ns[..n]) {
      AddedFirst(c, nodes, ns[..n], id);
      var j :| 0 <= j < n && ns[..n][j].id == id && AddNodes(nodes, ns[..n])[id] == ns[..n][j]
               && forall k :: 0 <= k < j ==> ns[..n][k].id != id;
      assert ns[j] == ns[..n][j];
      assert forall k :: 0 <= k < j ==> ns[k] == ns[..n][k];
    } else {
      forall k | 0 <= k < n ensures ns[k].id != id { AddNodesKeys(nodes, ns[..n], id); assert ns[..n][k] == ns[k]; }
      assert ns[n].id == id && AddNodes(nodes, ns)[id] == ns[n];
    }
  }

  /** Every node is just what the first event to mention it makes of it, and shows what goes with its identifier:
      whatever the events, column, caption and detail of servers, tools and risk classes depend on the identifier
      alone. */
  lemma {:induction false} NodeIsFirstMention(c: Context, events: seq<Event>, id: string)
    requires id in Walk(c, events).nodes
    ensures Walk(c, events).nodes[id].id == id && Fits(c, Walk(c, events).nodes[id])
    ensures exists i: nat, j: nat :: FirstMention(c, events, i, j, id)
              && Walk(c, events).nodes[id] == EventNodes(c, events[i])[j]
    decreases |events|
  {
    hide EventNodes, EventEdges, AddNodes, AddEdges, SanctionedId, Fits;
    var n := |events| - 1;
    var (g, e) := (Walk(c, events[..n]), events[n]);
    WalkFlags(c, events);
    WalkFlags(c, events[..n]);
    if id in g.nodes {
      NodeIsFirstMention(c, events[..n], id);
      var i: nat, j: nat :| FirstMention(c, events[..n], i, j, id) && g.nodes[id] == EventNodes(c, events[..n][i])[j];
      assert events[..n][..i] == events[..i] && events[..n][i] == events[i];
      assert FirstMention(c, events, i, j, id);
    } else {
      EventNodesFlagged(c, e);
      AddedFirst(c, g.nodes, EventNodes(c, e), id);
      var j :| 0 <= j < |EventNodes(c, e)| && EventNodes(c, e)[j].id == id
               && Walk(c, events).nodes[id] == EventNodes(c, e)[j]
               && forall k :: 0 <= k < j ==> EventNodes(c, e)[k].id != id;
      EventNodesFit(c, e, j);
      WalkCollects(c, events[..n], id, ("", ""));
      assert FirstMention(c, events, n, j, id);
    }
  }

  /** The node of a user: the column and the kind come from the first event of that principal, and so does the caption
      when no e-mail address is known. */
  lemma UserShows(c: Context, events: seq<Event>, principal: string)
    requires "user:" + principal in Walk(c, events).nodes
    ensures exists e :: e in events && e.principal == principal
              && var n := Walk(c, events).nodes["user:" + principal];
                 && (n.column == "agent" <==> c.likelyAgent(e.display, principal))
                 && (n.column == "user" <==> !c.likelyAgent(e.display, principal))
                 && n.detail == Some(e.kind)
                 && (principal !in c.emails ==> n.caption == if e.display != "" then e.display else principal)
  {
    hide Walk, Fits, LayerOf;
    var id := "user:" + principal;
    NodeIsFirstMention(c, events, id);
    var i: nat, j: nat :| FirstMention(c, events, i, j, id) && Walk(c, events).nodes[id] == EventNodes(c, events[i])[j];
    UserNodeOf(c, events[i], j, principal);
  }

  lemma UserNodeOf(c: Context, e: Event, j: nat, principal: string)
    requires j < |EventNodes(c, e)| && EventNodes(c, e)[j].id == "user:" + principal
    ensures EventNodes(c, e)[j] == UserNode(c, e) && e.principal == principal
  {
    hide ClassifyApp, LayerOf, ServerId, ToolId, RiskId;
    IsUserId(principal);
    assert AppNode(c, e).id == AppId(c, e);
    assert j == 0;
    assert UserId(e)[5..] == e.principal;
  }

  lemma IsUserId(principal: string)
    ensures LayerOf("user:" + principal) == User && ("user:" + principal)[5..] == principal
  {
  }

  // --- Risk classes -----------------------------------------------------------------------------------

  /** The risk class of a call, when there is one, and "unknown" otherwise. */
  predicate HasRisk(c: Context, server: string, tool: string, risk: string) {
    || ((server, tool) in c.risks && c.risks[(server, tool)] != "" && risk == c.risks[(server, tool)])
    || (((server, tool) !in c.risks || c.risks[(server, tool)] == "") && risk == "unknown")
  }

  predicate Calls(c: Context, e: Event, server: string) {
    Kept(c, e) && e.server == Some(server) && e.tool != ""
  }

  /** A server has an edge to a risk class if and only if some kept call of one of its tools has that risk. */
  lemma RiskEdgesExactly(c: Context, events: seq<Event>, server: string, risk: string)
    ensures ("mcp:" + server, "risk:" + risk) in Walk(c, events).edges
       <==> exists i :: 0 <= i < |events| && Calls(c, events[i], server) && HasRisk(c, server, events[i].tool, risk)
  {
    hide Walk, EventEdges, Kept;
    var k := ("mcp:" + server, "risk:" + risk);
    WalkCollects(c, events, "", k);
    forall i | 0 <= i < |events|
      ensures k in EventEdges(c, events[i])
         <==> Calls(c, events[i], server) && HasRisk(c, server, events[i].tool, risk)
    {
      RiskEdge(c, events[i], server, risk);
    }
  }

  lemma RiskEdge(c: Context, e: Event, server: string, risk: string)
    ensures ("mcp:" + server, "risk:" + risk) in EventEdges(c, e)
       <==> Calls(c, e, server) && HasRisk(c, server, e.tool, risk)
  {
    hide ClassifyApp, Kept;
    var k := ("mcp:" + server, "risk:" + risk);
    assert k.0[0] == 'm' && k.1[0] == 'r' && k.0[4..] == server && k.1[5..] == risk;
    assert UserId(e)[0] == 'u';
    if e.server.Some? {
      assert ServerId(e.server.value)[0] == 'm' && ServerId(e.server.value)[4..] == e.server.value;
      assert ToolId(e.server.value, e.tool)[0] == 't';
      assert RiskId(c, e)[5..] == Risk(c, e.server.value, e.tool);
    }
  }
}
