/** The weighted graph of api/nhi_map.py: who calls which upstream through which client. Regular expressions and the
    label tables are given; the order in which nodes and edges are listed is not modelled. */
module NhiMap {
  import opened Options
  import opened Sequences
  import opened Text

  datatype Event = Event(principal: string, display: string, kind: string, userAgent: Option<string>,
                         clientId: Option<string>, server: Option<string>, tool: string)

  datatype Node = Node(id: string, column: string, caption: string, sanctioned: bool, detail: Option<string>)

  type Edge = (string, string)

  datatype Graph = Graph(nodes: map<string, Node>, edges: map<Edge, nat>)

  /** `known` gives the label of the first known client whose pattern matches a user agent. */
  datatype Context = Context(known: string -> Option<string>, likelyAgent: (string, string) -> bool,
                             emails: map<string, string>, servers: map<string, string>,
                             risks: map<(string, string), string>, sanctionedOnly: bool)

  // --- One event -----------------------------------------------------------------------

  datatype Layer = User | App | Server | Tool | RiskClass | Unlayered

  /** The layer that an identifier's prefix gives away. */
  function LayerOf(id: string): Layer {
    if StartsWith(id, "user:") then User
    else if StartsWith(id, "idp:") || StartsWith(id, "app:") || StartsWith(id, "unknown:") then App
    else if StartsWith(id, "mcp:") then Server
    else if StartsWith(id, "tool:") then Tool
    else if StartsWith(id, "risk:") then RiskClass
    else Unlayered
  }

  function Short(userAgent: string): string {
    var text := Strip(userAgent);
    Lower(Replace(if |text| > 48 then text[..48] else text, ' ', '-'))
  }

  /** Identifier, label and sanctioned flag of the calling application. */
  function ClassifyApp(c: Context, e: Event): (string, string, bool) {
    if e.clientId.Some? && e.clientId.value != "" then ("idp:" + e.clientId.value, e.clientId.value, true)
    else if e.userAgent.None? || e.userAgent.value == "" then ("unknown:none", "Unknown / no UA", false)
    else
      match c.known(e.userAgent.value)
      case Some(caption) => ("app:" + Lower(caption), caption, true)
      case None =>
        var short := Short(e.userAgent.value);
        ("unknown:" + short, if short == "" then "(empty)" else short, false)
  }

  function UserId(e: Event): (id: string)
    ensures LayerOf(id) == User
  {
    "user:" + e.principal
  }

  function AppId(c: Context, e: Event): (id: string)
    ensures LayerOf(id) == App
  {
    assert ClassifyApp(c, e).0[1] in {'d', 'p', 'n'};
    ClassifyApp(c, e).0
  }

  function ServerId(server: string): (id: string)
    ensures LayerOf(id) == Server
  {
    assert ("mcp:" + server)[0] == 'm';
    "mcp:" + server
  }

  function ToolId(server: string, tool: string): (id: string)
    ensures LayerOf(id) == Tool
  {
    assert ("tool:" + (server + (":" + tool)))[0] == 't';
    "tool:" + (server + (":" + tool))
  }

  function Risk(c: Context, server: string, tool: string): string {
    if (server, tool) in c.risks && c.risks[(server, tool)] != "" then c.risks[(server, tool)] else "unknown"
  }

  function RiskId(c: Context, e: Event): (id: string)
    requires e.server.Some?
    ensures LayerOf(id) == RiskClass
  {
    assert ("risk:" + Risk(c, e.server.value, e.tool))[0] == 'r';
    "risk:" + Risk(c, e.server.value, e.tool)
  }

  function UserNode(c: Context, e: Event): Node {
    var caption := if e.principal in c.emails then c.emails[e.principal]
                 else if e.display != "" then e.display else e.principal;
    Node(UserId(e), if c.likelyAgent(e.display, e.principal) then "agent" else "user", caption, true, Some(e.kind))
  }

  function AppNode(c: Context, e: Event): Node {
    var (id, caption, sanctioned) := ClassifyApp(c, e);
    Node(id, "ai_app", caption, sanctioned, e.userAgent)
  }

  function ServerNode(c: Context, server: string): Node {
    Node(ServerId(server), "mcp_server",
         if server in c.servers then c.servers[server] else if |server| > 8 then server[..8] else server,
         server in c.servers, Some(server))
  }

  function ToolNode(c: Context, server: string, tool: string): Node {
    var name := if server in c.servers then c.servers[server] else "";
    var risk := if (server, tool) in c.risks then c.risks[(server, tool)] else "";
    Node(ToolId(server, tool), "tool", tool, true,
         Some(name + " · " + tool + (if risk != "" then " · " + risk else "")))
  }

  function RiskNode(c: Context, e: Event): Node
    requires e.server.Some?
  {
    var risk := Risk(c, e.server.value, e.tool);
    Node(RiskId(c, e), "risk", risk, true, Some("risk class · " + risk))
  }

  /** The whole interaction is filtered out when only sanctioned clients are asked for. */
  predicate Kept(c: Context, e: Event) {
    c.sanctionedOnly ==> ClassifyApp(c, e).2
  }

  /** What an event contributes. The user node comes before the filter. */
  function EventNodes(c: Context, e: Event): seq<Node> {
    if !Kept(c, e) then [UserNode(c, e)]
    else if e.server.None? then [UserNode(c, e), AppNode(c, e)]
    else if e.tool == "" then [UserNode(c, e), AppNode(c, e), ServerNode(c, e.server.value)]
    else [UserNode(c, e), AppNode(c, e), ServerNode(c, e.server.value), ToolNode(c, e.server.value, e.tool),
          RiskNode(c, e)]
  }

  function EventEdges(c: Context, e: Event): seq<Edge> {
    if !Kept(c, e) then []
    else if e.server.None? then [(UserId(e), AppId(c, e))]
    else if e.tool == "" then [(UserId(e), AppId(c, e)), (AppId(c, e), ServerId(e.server.value))]
    else [(UserId(e), AppId(c, e)), (AppId(c, e), ServerId(e.server.value)),
          (ServerId(e.server.value), ToolId(e.server.value, e.tool)), (ServerId(e.server.value), RiskId(c, e))]
  }

  // --- The walk ------------------------------------------------------------------------

  /** An existing node stays, unless the new one is sanctioned and it is not. */
  function AddNode(nodes: map<string, Node>, n: Node): map<string, Node> {
    if n.id !in nodes || (!nodes[n.id].sanctioned && n.sanctioned) then nodes[n.id := n] else nodes
  }

  function AddEdge(edges: map<Edge, nat>, k: Edge): map<Edge, nat> {
    edges[k := (if k in edges then edges[k] else 0) + 1]
  }

  function AddNodes(nodes: map<string, Node>, ns: seq<Node>): map<string, Node> {
    if ns == [] then nodes else AddNode(AddNodes(nodes, ns[..|ns| - 1]), ns[|ns| - 1])
  }

  function AddEdges(edges: map<Edge, nat>, ks: seq<Edge>): map<Edge, nat> {
    if ks == [] then edges else AddEdge(AddEdges(edges, ks[..|ks| - 1]), ks[|ks| - 1])
  }

  function Walk(c: Context, events: seq<Event>): Graph {
    if events == [] then Graph(map[], map[])
    else
      var g := Walk(c, events[..|events| - 1]);
      var e := events[|events| - 1];
      Graph(AddNodes(g.nodes, EventNodes(c, e)), AddEdges(g.edges, EventEdges(c, e)))
  }

  lemma AddNodesOneByOne(nodes: map<string, Node>, ns: seq<Node>)
    requires 1 <= |ns| <= 5
    ensures var n1 := AddNode(nodes, ns[0]);
            var n2 := if |ns| > 1 then AddNode(n1, ns[1]) else n1;
            var n3 := if |ns| > 2 then AddNode(n2, ns[2]) else n2;
            var n4 := if |ns| > 3 then AddNode(n3, ns[3]) else n3;
            AddNodes(nodes, ns) == if |ns| > 4 then AddNode(n4, ns[4]) else n4
  {
    hide AddNode;
    if |ns| == 1 {
      assert AddNodes(nodes, ns[..0]) == nodes;
    } else {
      AddNodesOneByOne(nodes, ns[..|ns| - 1]);
    }
  }

  lemma AddEdgesOneByOne(edges: map<Edge, nat>, ks: seq<Edge>)
    requires |ks| <= 4
    ensures var k1 := if |ks| > 0 then AddEdge(edges, ks[0]) else edges;
            var k2 := if |ks| > 1 then AddEdge(k1, ks[1]) else k1;
            var k3 := if |ks| > 2 then AddEdge(k2, ks[2]) else k2;
            AddEdges(edges, ks) == if |ks| > 3 then AddEdge(k3, ks[3]) else k3
  {
    hide AddEdge;
    if |ks| > 0 {
      AddEdgesOneByOne(edges, ks[..|ks| - 1]);
    }
  }

  method BuildMap(c: Context, events: seq<Event>) returns (g: Graph)
    ensures g == Walk(c, events)
  {
    hide AddNode, AddEdge, AddNodes, AddEdges, ClassifyApp, UserId, ServerId, ToolId, RiskId, UserNode, AppNode;
    hide ServerNode, ToolNode, RiskNode;
    var nodes: map<string, Node> := map[];
    var edges: map<Edge, nat> := map[];
    for i := 0 to |events|
      invariant Graph(nodes, edges) == Walk(c, events[..i])
    {
      var e := events[i];
      assert events[..i + 1][..i] == events[..i];
      AddNodesOneByOne(nodes, EventNodes(c, e));
      AddEdgesOneByOne(edges, EventEdges(c, e));
      nodes := AddNode(nodes, UserNode(c, e));
      var (appId, _, appSanctioned) := ClassifyApp(c, e);
      if c.sanctionedOnly && !appSanctioned {
        continue;
      }
      nodes := AddNode(nodes, AppNode(c, e));
      if e.server.Some? {
        nodes := AddNode(nodes, ServerNode(c, e.server.value));
      }
      edges := AddEdge(edges, (UserId(e), appId));
      if e.server.Some? {
        edges := AddEdge(edges, (appId, ServerId(e.server.value)));
      }
      if e.server.Some? && e.tool != "" {
        var server := e.server.value;
        nodes := AddNode(nodes, ToolNode(c, server, e.tool));
        edges := AddEdge(edges, (ServerId(server), ToolId(server, e.tool)));
        nodes := AddNode(nodes, RiskNode(c, e));
        edges := AddEdge(edges, (ServerId(server), RiskId(c, e)));
      }
    }
    assert events[..|events|] == events;
    g := Graph(nodes, edges);
  }

  // --- Where nodes and edges come from -------------------------------------------------------

  lemma {:induction false} AddNodesKeys(nodes: map<string, Node>, ns: seq<Node>, id: string)
    ensures id in AddNodes(nodes, ns) <==> id in nodes || exists j :: 0 <= j < |ns| && ns[j].id == id
  {
    if ns != [] {
      var n := |ns| - 1;
      AddNodesKeys(nodes, ns[..n], id);
      if j :| 0 <= j < |ns| && ns[j].id == id && j < n { assert ns[..n][j].id == id; }
    }
  }

  lemma {:induction false} AddEdgesKeys(edges: map<Edge, nat>, ks: seq<Edge>, k: Edge)
    ensures k in AddEdges(edges, ks) <==> k in edges || k in ks
  {
    if ks != [] {
      AddEdgesKeys(edges, ks[..|ks| - 1], k);
      assert ks == ks[..|ks| - 1] + [ks[|ks| - 1]];
    }
  }

  ghost predicate MentionsNode(c: Context, events: seq<Event>, id: string) {
    exists i, j :: 0 <= i < |events| && 0 <= j < |EventNodes(c, events[i])| && EventNodes(c, events[i])[j].id == id
  }

  ghost predicate MentionsEdge(c: Context, events: seq<Event>, k: Edge) {
    exists i :: 0 <= i < |events| && k in EventEdges(c, events[i])
  }

  /** The map has exactly the nodes and the edges that its events mention. */
  lemma {:induction false} WalkCollects(c: Context, events: seq<Event>, id: string, k: Edge)
    ensures id in Walk(c, events).nodes <==> MentionsNode(c, events, id)
    ensures k in Walk(c, events).edges <==> MentionsEdge(c, events, k)
    decreases |events|
  {
    hide EventNodes, EventEdges, AddNodes, AddEdges;
    if events != [] {
      var n := |events| - 1;
      var g := Walk(c, events[..n]);
      WalkCollects(c, events[..n], id, k);
      AddNodesKeys(g.nodes, EventNodes(c, events[n]), id);
      AddEdgesKeys(g.edges, EventEdges(c, events[n]), k);
      assert forall i :: 0 <= i < n ==> events[..n][i] == events[i];
      assert MentionsEdge(c, events, k) <==> MentionsEdge(c, events[..n], k) || k in EventEdges(c, events[n]);
      var last := EventNodes(c, events[n]);
      assert MentionsNode(c, events, id)
        <==> (MentionsNode(c, events[..n], id) || exists j :: 0 <= j < |last| && last[j].id == id);
    }
  }

  /** Both ends of every edge are nodes, and edges only go from one layer to the next. */
  lemma EdgesAreLayered(c: Context, events: seq<Event>)
    ensures forall k :: k in Walk(c, events).edges ==>
              && k.0 in Walk(c, events).nodes && k.1 in Walk(c, events).nodes
              && (LayerOf(k.0), LayerOf(k.1)) in {(User, App), (App, Server), (Server, Tool), (Server, RiskClass)}
  {
    hide Walk, EventNodes, EventEdges, LayerOf;
    forall k | k in Walk(c, events).edges
      ensures k.0 in Walk(c, events).nodes && k.1 in Walk(c, events).nodes
      ensures (LayerOf(k.0), LayerOf(k.1)) in {(User, App), (App, Server), (Server, Tool), (Server, RiskClass)}
    {
      WalkCollects(c, events, k.0, k);
      WalkCollects(c, events, k.1, k);
      var i :| 0 <= i < |events| && k in EventEdges(c, events[i]);
      EdgeEnds(c, events[i], k);
    }
  }

  lemma EdgeEnds(c: Context, e: Event, k: Edge)
    requires k in EventEdges(c, e)
    ensures exists j :: 0 <= j < |EventNodes(c, e)| && EventNodes(c, e)[j].id == k.0
    ensures exists j :: 0 <= j < |EventNodes(c, e)| && EventNodes(c, e)[j].id == k.1
    ensures (LayerOf(k.0), LayerOf(k.1)) in {(User, App), (App, Server), (Server, Tool), (Server, RiskClass)}
  {
    hide LayerOf, ClassifyApp, ServerId, ToolId, RiskId, UserId;
    var ns := EventNodes(c, e);
    assert ns[0].id == UserId(e) && ns[1].id == AppId(c, e);
    if e.server.Some? {
      assert ns[2].id == ServerId(e.server.value);
      if e.tool != "" {
        assert ns[3].id == ToolId(e.server.value, e.tool) && ns[4].id == RiskId(c, e);
      }
    }
  }

  // --- Conservation --------------------------------------------------------------------------

  ghost function Sum(edges: map<Edge, nat>, keys: set<Edge>): nat
    requires keys <= edges.Keys
  {
    if keys == {} then 0
    else
      var k :| k in keys;
      edges[k] + Sum(edges, keys - {k})
  }

  /** The weight of all edges in a class. */
  ghost function Total(edges: map<Edge, nat>, p: Edge -> bool): nat {
    Sum(edges, set k | k in edges && p(k))
  }

  lemma {:induction false} SumRemove(edges: map<Edge, nat>, keys: set<Edge>, k: Edge)
    requires keys <= edges.Keys && k in keys
    ensures Sum(edges, keys) == edges[k] + Sum(edges, keys - {k})
  {
    var first :| first in keys && Sum(edges, keys) == edges[first] + Sum(edges, keys - {first});
    if first != k {
      SumRemove(edges, keys - {first}, k);
      SumRemove(edges, keys - {k}, first);
      assert keys - {first} - {k} == keys - {k} - {first};
    }
  }

  lemma {:induction false} SumAgrees(one: map<Edge, nat>, other: map<Edge, nat>, keys: set<Edge>)
    requires keys <= one.Keys && keys <= other.Keys
    requires forall k :: k in keys ==> one[k] == other[k]
    ensures Sum(one, keys) == Sum(other, keys)
  {
    if keys != {} {
      var k :| k in keys;
      SumRemove(one, keys, k);
      SumRemove(other, keys, k);
      SumAgrees(one, other, keys - {k});
    }
  }

  lemma TotalOfAdd(edges: map<Edge, nat>, k: Edge, p: Edge -> bool)
    ensures Total(AddEdge(edges, k), p) == Total(edges, p) + if p(k) then 1 else 0
  {
    var added := AddEdge(edges, k);
    var (before, after) := (set x | x in edges && p(x), set x | x in added && p(x));
    if p(k) {
      SumRemove(added, after, k);
      assert after - {k} == before - {k};
      SumAgrees(edges, added, before - {k});
      if k in edges { SumRemove(edges, before, k); } else { assert before - {k} == before; }
    } else {
      assert before == after;
      SumAgrees(edges, added, before);
    }
  }

  function Hits(ks: seq<Edge>, p: Edge -> bool): nat {
    if ks == [] then 0 else Hits(ks[..|ks| - 1], p) + if p(ks[|ks| - 1]) then 1 else 0
  }

  /** How often the events mention an edge of a class. */
  function Count(c: Context, events: seq<Event>, p: Edge -> bool): nat {
    if events == [] then 0
    else Count(c, events[..|events| - 1], p) + Hits(EventEdges(c, events[|events| - 1]), p)
  }

  lemma {:induction false} TotalOfAdds(edges: map<Edge, nat>, ks: seq<Edge>, p: Edge -> bool)
    ensures Total(AddEdges(edges, ks), p) == Total(edges, p) + Hits(ks, p)
  {
    if ks != [] {
      TotalOfAdds(edges, ks[..|ks| - 1], p);
      TotalOfAdd(AddEdges(edges, ks[..|ks| - 1]), ks[|ks| - 1], p);
    }
  }

  /** The weight in any class of edges is the number of times the events mention it. */
  lemma {:induction false} WeightIsCount(c: Context, events: seq<Event>, p: Edge -> bool)
    ensures Total(Walk(c, events).edges, p) == Count(c, events, p)
    decreases |events|
  {
    hide EventEdges, AddEdges;
    if events == [] {
      assert Walk(c, events).edges == map[];
    } else {
      WeightIsCount(c, events[..|events| - 1], p);
      TotalOfAdds(Walk(c, events[..|events| - 1]).edges, EventEdges(c, events[|events| - 1]), p);
    }
  }

  function CountEvents(events: seq<Event>, q: Event -> bool): nat {
    if events == [] then 0 else CountEvents(events[..|events| - 1], q) + if q(events[|events| - 1]) then 1 else 0
  }

  lemma {:induction false} CountByEvent(c: Context, events: seq<Event>, p: Edge -> bool, q: Event -> bool)
    requires forall e :: e in events ==> Hits(EventEdges(c, e), p) == if q(e) then 1 else 0
    ensures Count(c, events, p) == CountEvents(events, q)
    decreases |events|
  {
    hide EventEdges, Hits;
    if events != [] {
      CountByEvent(c, events[..|events| - 1], p, q);
      assert events[|events| - 1] in events;
    }
  }

  lemma HitsOneByOne(ks: seq<Edge>, p: Edge -> bool)
    requires |ks| <= 4
    ensures Hits(ks, p) == (if |ks| > 0 && p(ks[0]) then 1 else 0) + (if |ks| > 1 && p(ks[1]) then 1 else 0)
                           + (if |ks| > 2 && p(ks[2]) then 1 else 0) + (if |ks| > 3 && p(ks[3]) then 1 else 0)
  {
    if |ks| > 0 { HitsOneByOne(ks[..|ks| - 1], p); }
  }

  lemma WeightByEvent(c: Context, events: seq<Event>, p: Edge -> bool, q: Event -> bool)
    requires forall e :: e in events ==> Hits(EventEdges(c, e), p) == if q(e) then 1 else 0
    ensures Total(Walk(c, events).edges, p) == CountEvents(events, q)
  {
    WeightIsCount(c, events, p);
    CountByEvent(c, events, p, q);
  }

  function FromUsers(): Edge -> bool { (k: Edge) => LayerOf(k.0) == User }
  function From(id: string): Edge -> bool { (k: Edge) => k.0 == id }
  function Into(id: string): Edge -> bool { (k: Edge) => k.1 == id }
  function Fan(id: string, layer: Layer): Edge -> bool { (k: Edge) => k.0 == id && LayerOf(k.1) == layer }

  function KeptEvents(c: Context): Event -> bool { (e: Event) => Kept(c, e) }
  function RoutedBy(c: Context, app: string): Event -> bool {
    (e: Event) => Kept(c, e) && AppId(c, e) == app && e.server.Some?
  }
  function Calling(c: Context, server: string): Event -> bool { (e: Event) => Kept(c, e) && e.server == Some(server) }
  function Naming(c: Context, server: string): Event -> bool {
    (e: Event) => Kept(c, e) && e.server == Some(server) && e.tool != ""
  }

  /** The weight from users to applications is the number of events kept. */
  lemma UserWeight(c: Context, events: seq<Event>)
    ensures Total(Walk(c, events).edges, FromUsers()) == CountEvents(events, KeptEvents(c))
  {
    forall e | e in events ensures Hits(EventEdges(c, e), FromUsers()) == if KeptEvents(c)(e) then 1 else 0 {
      HitsOneByOne(EventEdges(c, e), FromUsers());
    }
    WeightByEvent(c, events, FromUsers(), KeptEvents(c));
  }

  /** The weight out of an application is the number of its kept events that had an upstream. */
  lemma AppWeight(c: Context, events: seq<Event>, app: string)
    requires LayerOf(app) == App
    ensures Total(Walk(c, events).edges, From(app)) == CountEvents(events, RoutedBy(c, app))
  {
    forall e | e in events ensures Hits(EventEdges(c, e), From(app)) == if RoutedBy(c, app)(e) then 1 else 0 {
      hide LayerOf, UserId, ServerId, AppId;
      HitsOneByOne(EventEdges(c, e), From(app));
    }
    WeightByEvent(c, events, From(app), RoutedBy(c, app));
  }

  lemma ServerIdsDiffer(one: string, other: string)
    ensures ServerId(one) == ServerId(other) <==> one == other
  {
    assert ServerId(one)[4..] == one && ServerId(other)[4..] == other;
  }

  lemma ServerInWeight(c: Context, events: seq<Event>, server: string)
    ensures Total(Walk(c, events).edges, Into(ServerId(server))) == CountEvents(events, Calling(c, server))
  {
    var p := Into(ServerId(server));
    forall e | e in events ensures Hits(EventEdges(c, e), p) == if Calling(c, server)(e) then 1 else 0 {
      hide LayerOf, UserId, ServerId, AppId, ToolId, RiskId;
      HitsOneByOne(EventEdges(c, e), p);
      if e.server.Some? { ServerIdsDiffer(e.server.value, server); }
    }
    WeightByEvent(c, events, p, Calling(c, server));
  }

  lemma ServerOutWeight(c: Context, events: seq<Event>, server: string, layer: Layer)
    requires layer == Tool || layer == RiskClass
    ensures Total(Walk(c, events).edges, Fan(ServerId(server), layer)) == CountEvents(events, Naming(c, server))
  {
    var p := Fan(ServerId(server), layer);
    forall e | e in events ensures Hits(EventEdges(c, e), p) == if Naming(c, server)(e) then 1 else 0 {
      hide LayerOf, UserId, ServerId, AppId, ToolId, RiskId;
      HitsOneByOne(EventEdges(c, e), p);
      if e.server.Some? { ServerIdsDiffer(e.server.value, server); }
    }
    WeightByEvent(c, events, p, Naming(c, server));
  }

  lemma {:induction false} CountImplied(events: seq<Event>, q: Event -> bool, r: Event -> bool)
    requires forall e :: e in events && q(e) ==> r(e)
    ensures CountEvents(events, q) <= CountEvents(events, r)
    ensures CountEvents(events, q) == CountEvents(events, r) <==> forall e :: e in events && r(e) ==> q(e)
    decreases |events|
  {
    if events != [] {
      var n := |events| - 1;
      CountImplied(events[..n], q, r);
      assert events == events[..n] + [events[n]];
    }
  }

  /** What flows into a server and out of it: as much to tools as to risk classes, and never more than came in. The two
      sides agree if and only if every kept call of that server names a tool. */
  lemma ServerConserves(c: Context, events: seq<Event>, server: string)
    ensures var edges := Walk(c, events).edges;
            var (id, within) := (ServerId(server), Total(edges, Into(ServerId(server))));
            && Total(edges, Fan(id, Tool)) == Total(edges, Fan(id, RiskClass)) <= within
            && (Total(edges, Fan(id, Tool)) == within
                <==> forall e :: e in events && Kept(c, e) && e.server == Some(server) ==> e.tool != "")
  {
    ServerInWeight(c, events, server);
    ServerOutWeight(c, events, server, Tool);
    ServerOutWeight(c, events, server, RiskClass);
    CountImplied(events, Naming(c, server), Calling(c, server));
  }

  // --- Order of events -----------------------------------------------------------------------

  lemma RemovedLast(events: seq<Event>, j: nat)
    requires j < |events| - 1
    ensures var rest := events[..j] + events[j + 1..];
            var front := events[..|events| - 1];
            && |rest| == |events| - 1 && rest[|rest| - 1] == events[|events| - 1]
            && rest[..|rest| - 1] == front[..j] + front[j + 1..]
  {
  }

  lemma {:induction false} CountRemove(c: Context, events: seq<Event>, j: nat, p: Edge -> bool)
    requires j < |events|
    ensures Count(c, events, p) == Count(c, events[..j] + events[j + 1..], p) + Hits(EventEdges(c, events[j]), p)
    decreases |events|
  {
    hide EventEdges, Hits;
    var n := |events| - 1;
    var rest := events[..j] + events[j + 1..];
    if j == n {
      assert rest == events[..n];
    } else {
      RemovedLast(events, j);
      CountRemove(c, events[..n], j, p);
    }
  }

  lemma {:induction false} CountIgnoresOrder(c: Context, one: seq<Event>, other: seq<Event>, p: Edge -> bool)
    requires multiset(one) == multiset(other)
    ensures Count(c, one, p) == Count(c, other, p)
    decreases |one|
  {
    hide EventEdges, Hits;
    if one == [] {
      assert |other| == |multiset(other)| == 0;
    } else {
      var j := LastElsewhere(one, other);
      CountIgnoresOrder(c, one[..|one| - 1], other[..j] + other[j + 1..], p);
      CountRemove(c, other, j, p);
    }
  }

  function Only(k: Edge): Edge -> bool { (x: Edge) => x == k }

  lemma OneEdge(edges: map<Edge, nat>, k: Edge)
    ensures Total(edges, Only(k)) == if k in edges then edges[k] else 0
  {
    var keys := set x | x in edges && Only(k)(x);
    if k in edges {
      assert keys == {k};
      SumRemove(edges, keys, k);
      assert keys - {k} == {};
    } else {
      assert keys == {};
    }
  }

  /** The order of the events does not matter: the same weights on the same edges, and the same nodes. */
  lemma OrderDoesNotMatter(c: Context, one: seq<Event>, other: seq<Event>)
    requires multiset(one) == multiset(other)
    ensures Walk(c, one).edges == Walk(c, other).edges
    ensures Walk(c, one).nodes.Keys == Walk(c, other).nodes.Keys
  {
    hide Total, Count;
    var (g, h) := (Walk(c, one), Walk(c, other));
    forall k ensures k in g.edges ==> k in h.edges && g.edges[k] == h.edges[k]
             ensures k in h.edges ==> k in g.edges
    {
      MentionedAlike(c, one, other, "", k);
      MentionedAlike(c, other, one, "", k);
      WeightIsCount(c, one, Only(k));
      WeightIsCount(c, other, Only(k));
      CountIgnoresOrder(c, one, other, Only(k));
      OneEdge(g.edges, k);
      OneEdge(h.edges, k);
    }
    forall id ensures id in g.nodes <==> id in h.nodes {
      MentionedAlike(c, one, other, id, ("", ""));
      MentionedAlike(c, other, one, id, ("", ""));
    }
  }

  lemma MentionedAlike(c: Context, one: seq<Event>, other: seq<Event>, id: string, k: Edge)
    requires multiset(one) == multiset(other)
    ensures id in Walk(c, one).nodes ==> id in Walk(c, other).nodes
    ensures k in Walk(c, one).edges ==> k in Walk(c, other).edges
  {
    hide Walk, EventNodes, EventEdges;
    WalkCollects(c, one, id, k);
    WalkCollects(c, other, id, k);
    forall i | 0 <= i < |one| ensures exists j :: 0 <= j < |other| && other[j] == one[i] {
      assert one[i] in multiset(other);
    }
  }

  // --- Nodes ---------------------------------------------------------------------------------

  /** Whether a node is sanctioned can be read off its identifier. */
  predicate SanctionedId(c: Context, id: string) {
    if StartsWith(id, "mcp:") then id[4..] in c.servers else !StartsWith(id, "unknown:")
  }

  lemma AppSanctionedById(c: Context, e: Event)
    ensures AppNode(c, e).sanctioned <==> SanctionedId(c, AppNode(c, e).id)
  {
    hide Short, Lower;
    assert AppNode(c, e).id[0] in {'i', 'a', 'u'};
    assert AppNode(c, e).sanctioned ==> AppNode(c, e).id[0] != 'u';
  }

  lemma ServerSanctionedById(c: Context, server: string)
    ensures ServerNode(c, server).sanctioned <==> SanctionedId(c, ServerId(server))
  {
    assert ServerId(server)[4..] == server;
  }

  lemma OtherSanctionedById(c: Context, id: string)
    requires LayerOf(id) in {User, Tool, RiskClass}
    ensures SanctionedId(c, id)
  {
    assert StartsWith(id, "user:") ==> id[0] == 'u' && id[1] == 's';
  }

  lemma SanctionedById(c: Context, e: Event, j: nat)
    requires j < |EventNodes(c, e)|
    ensures EventNodes(c, e)[j].sanctioned <==> SanctionedId(c, EventNodes(c, e)[j].id)
  {
    hide LayerOf, ClassifyApp, SanctionedId, UserId, ServerId, ToolId, RiskId;
    var n := EventNodes(c, e)[j];
    if j == 1 {
      AppSanctionedById(c, e);
    } else if j == 2 {
      ServerSanctionedById(c, e.server.value);
    } else {
      OtherSanctionedById(c, n.id);
    }
  }

  ghost predicate FlagsById(c: Context, nodes: map<string, Node>) {
    forall id :: id in nodes ==> nodes[id].id == id && (nodes[id].sanctioned <==> SanctionedId(c, id))
  }

  /** All nodes that were there are still there, unchanged. */
  ghost predicate Extends(before: map<string, Node>, after: map<string, Node>) {
    forall id :: id in before ==> id in after && after[id] == before[id]
  }

  lemma {:induction false} AddNodesKeeps(c: Context, nodes: map<string, Node>, ns: seq<Node>)
    requires FlagsById(c, nodes)
    requires forall j :: 0 <= j < |ns| ==> (ns[j].sanctioned <==> SanctionedId(c, ns[j].id))
    ensures FlagsById(c, AddNodes(nodes, ns))
    ensures Extends(nodes, AddNodes(nodes, ns))
  {
    hide SanctionedId;
    if ns != [] {
      AddNodesKeeps(c, nodes, ns[..|ns| - 1]);
    }
  }

  lemma EventNodesFlagged(c: Context, e: Event)
    ensures forall j :: 0 <= j < |EventNodes(c, e)| ==>
              (EventNodes(c, e)[j].sanctioned <==> SanctionedId(c, EventNodes(c, e)[j].id))
  {
    hide EventNodes, SanctionedId;
    forall j | 0 <= j < |EventNodes(c, e)|
      ensures EventNodes(c, e)[j].sanctioned <==> SanctionedId(c, EventNodes(c, e)[j].id)
    {
      SanctionedById(c, e, j);
    }
  }

  /** Another event leaves the nodes that are there alone. */
  lemma {:induction false} WalkFlags(c: Context, events: seq<Event>)
    ensures FlagsById(c, Walk(c, events).nodes)
    ensures events != [] ==> Extends(Walk(c, events[..|events| - 1]).nodes, Walk(c, events).nodes)
    decreases |events|
  {
    hide EventNodes, SanctionedId, AddNodes;
    if events != [] {
      var e := events[|events| - 1];
      WalkFlags(c, events[..|events| - 1]);
      EventNodesFlagged(c, e);
      AddNodesKeeps(c, Walk(c, events[..|events| - 1]).nodes, EventNodes(c, e));
    }
  }

  /** So the promotion of an unsanctioned node never takes place: the first event to mention a node decides its label
      and detail, whatever comes later. */
  lemma {:induction false} FirstMentionWins(c: Context, events: seq<Event>, i: nat)
    requires i <= |events|
    ensures Extends(Walk(c, events[..i]).nodes, Walk(c, events).nodes)
    decreases |events|
  {
    hide EventNodes, EventEdges, AddNodes, AddEdges, FlagsById;
    if i == |events| {
      assert events[..i] == events;
    } else {
      assert events[..|events| - 1][..i] == events[..i];
      FirstMentionWins(c, events[..|events| - 1], i);
      WalkFlags(c, events);
    }
  }

  ghost predicate Referenced(edges: map<Edge, nat>, id: string) {
    exists k :: k in edges && (k.0 == id || k.1 == id)
  }

  /** Some event of this principal survives the filter. */
  predicate Survives(c: Context, events: seq<Event>, principal: string) {
    exists k :: k in events && Kept(c, k) && k.principal == principal
  }

  /** Every node is an end of some edge. */
  ghost predicate OnlyReferenced(c: Context, events: seq<Event>) {
    forall id :: id in Walk(c, events).nodes ==> Referenced(Walk(c, events).edges, id)
  }

  predicate EverySurvives(c: Context, events: seq<Event>) {
    forall e :: e in events ==> Survives(c, events, e.principal)
  }

  /** The nodes are the ones that edges refer to, as the model class promises, if and only if every principal has some
      event that survives the filter: the user node is added before the filter is applied. */
  lemma NodesReferencedExactly(c: Context, events: seq<Event>)
    ensures OnlyReferenced(c, events) <==> EverySurvives(c, events)
  {
    hide Walk, Survives, Referenced;
    if EverySurvives(c, events) {
      AllReferenced(c, events);
    }
    if OnlyReferenced(c, events) {
      forall e | e in events ensures Survives(c, events, e.principal) {
        ReferencedSurvives(c, events, e);
      }
    }
  }

  lemma AllReferenced(c: Context, events: seq<Event>)
    requires EverySurvives(c, events)
    ensures OnlyReferenced(c, events)
  {
    hide Walk, Survives, Referenced;
    forall id | id in Walk(c, events).nodes ensures Referenced(Walk(c, events).edges, id) {
      SurvivingIsReferenced(c, events, id);
    }
  }

  lemma SurvivingIsReferenced(c: Context, events: seq<Event>, id: string)
    requires EverySurvives(c, events)
    ensures id in Walk(c, events).nodes ==> Referenced(Walk(c, events).edges, id)
  {
    hide Walk, EventNodes, EventEdges, Kept;
    if id !in Walk(c, events).nodes { return; }
    WalkCollects(c, events, id, ("", ""));
    var i, j :| 0 <= i < |events| && 0 <= j < |EventNodes(c, events[i])| && EventNodes(c, events[i])[j].id == id;
    assert Survives(c, events, events[i].principal);
    var k :| k in events && Kept(c, k) && k.principal == events[i].principal;
    var edge := NodeNeedsEdge(c, events[i], j, k);
    WalkCollects(c, events, id, edge);
    var m :| 0 <= m < |events| && events[m] == k;
  }

  lemma ReferencedSurvives(c: Context, events: seq<Event>, e: Event)
    requires e in events && (UserId(e) in Walk(c, events).nodes ==> Referenced(Walk(c, events).edges, UserId(e)))
    ensures Survives(c, events, e.principal)
  {
    hide Walk, EventNodes, EventEdges, Kept, UserId;
    UserNodeFirst(c, e);
    WalkCollects(c, events, UserId(e), ("", ""));
    assert MentionsNode(c, events, UserId(e)) by {
      var i :| 0 <= i < |events| && events[i] == e;
      assert EventNodes(c, events[i])[0].id == UserId(e);
    }
    var edge :| edge in Walk(c, events).edges && (edge.0 == UserId(e) || edge.1 == UserId(e));
    WalkCollects(c, events, UserId(e), edge);
    var m :| 0 <= m < |events| && edge in EventEdges(c, events[m]);
    UserEdge(c, events[m], edge, e);
    assert events[m] in events;
  }

  lemma UserNodeFirst(c: Context, e: Event)
    ensures |EventNodes(c, e)| > 0 && EventNodes(c, e)[0].id == UserId(e)
  {
  }

  /** An edge at the node, from this event or from a kept event of the same principal. */
  lemma NodeNeedsEdge(c: Context, e: Event, j: nat, k: Event) returns (edge: Edge)
    requires j < |EventNodes(c, e)| && Kept(c, k) && k.principal == e.principal
    ensures edge in EventEdges(c, e) || edge in EventEdges(c, k)
    ensures edge.0 == EventNodes(c, e)[j].id || edge.1 == EventNodes(c, e)[j].id
  {
    hide LayerOf, ClassifyApp, ServerId, ToolId, RiskId;
    edge := if j == 0 then EventEdges(c, k)[0] else EventEdges(c, e)[j - 1];
  }

  lemma UserEdge(c: Context, e: Event, edge: Edge, user: Event)
    requires edge in EventEdges(c, e) && (edge.0 == UserId(user) || edge.1 == UserId(user))
    ensures Kept(c, e) && e.principal == user.principal
  {
    EdgeEnds(c, e, edge);
    assert UserId(e)[5..] == e.principal && UserId(user)[5..] == user.principal;
  }

  /** A server id has no colon, so tools of the same name on different servers stay apart. */
  lemma ToolIdsDiffer(server: string, tool: string, otherServer: string, otherTool: string)
    requires ':' !in server && ':' !in otherServer
    ensures ToolId(server, tool) == ToolId(otherServer, otherTool) <==> server == otherServer && tool == otherTool
  {
    if ToolId(server, tool) == ToolId(otherServer, otherTool) {
      var text := ToolId(server, tool)[5..];
      assert text == server + (":" + tool) && text == otherServer + (":" + otherTool);
      FirstColon(server, otherServer, text);
      FirstColon(otherServer, server, text);
      assert server == text[..|server|] == otherServer;
      assert tool == text[|server| + 1..] == otherTool;
    }
  }
}
