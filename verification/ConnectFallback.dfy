/** How one upstream server's cached client identity moves between CIMD and DCR as users press Connect
    (`_resolve_client_id_and_auth_url` and the callback in api/oauth_authcode.py). A Connect is three steps: the
    initiate call, the callback up to its post to the token endpoint, and the handling of the reply. */
module ConnectFallback {
  import opened Options

  datatype ClientId = DocumentUrl | Registered(number: nat)

  datatype Mechanism = Cimd | CimdRejected | Dcr

  datatype ClientRow = ClientRow(client: ClientId, mechanism: Mechanism)

  /** The authorization server: whether it advertises and honours CIMD, whether it registers clients, and which
      registrations it still knows. */
  datatype AuthServer = AuthServer(advertises: bool, honours: bool, registers: bool, live: set<nat>, next: nat)

  predicate Knows(a: AuthServer, c: ClientId) {
    match c
    case DocumentUrl => a.honours
    case Registered(n) => n in a.live
  }

  datatype Outcome =
    | Connected
    | CimdRefused         // 409, marker recorded
    | ClientEvicted       // 409, registration dropped
    | NotRegistered       // 409, no row at callback time
    | ExchangeFailed      // 502, the code belongs to another client
    | DiscoveryFailed     // 502 at initiate

  datatype Stage =
    | Sent(client: ClientId)
    | Posted(client: ClientId, posted: ClientId, mechanism: Mechanism)
    | Done(outcome: Outcome)

  /** `offers` says whether this gateway has a document URL to offer, which takes an https base URL. */
  datatype State = State(row: Option<ClientRow>, server: AuthServer, flows: map<nat, Stage>, offers: bool)

  // --- Steps ---------------------------------------------------------------------------

  /** A new registration, or nothing when the server refuses to register. */
  function Register(s: State): Option<State> {
    if !s.server.registers then None
    else
      var n := s.server.next;
      Some(s.(row := Some(ClientRow(Registered(n), Dcr)),
              server := s.server.(live := s.server.live + {n}, next := n + 1)))
  }

  /** The client identity used for this Connect. After a refusal the advertisement is ignored; a failed registration
      rolls the deletion of the marker back. */
  function Resolve(s: State): Option<State> {
    if s.row.Some? && s.row.value.mechanism != CimdRejected then Some(s)
    else if s.row.None? && s.offers && s.server.advertises then Some(s.(row := Some(ClientRow(DocumentUrl, Cimd))))
    else Register(s)
  }

  function Initiate(s: State, id: nat): State {
    match Resolve(s)
    case None => s.(flows := s.flows[id := Done(DiscoveryFailed)])
    case Some(t) => t.(flows := s.flows[id := if t.row.Some? then Sent(t.row.value.client) else Done(DiscoveryFailed)])
  }

  /** The mechanism is read here, before the reply of the token endpoint is known. */
  function Callback(s: State, id: nat): State {
    if id !in s.flows || !s.flows[id].Sent? then s
    else if s.row.None? then s.(flows := s.flows[id := Done(NotRegistered)])
    else s.(flows := s.flows[id := Posted(s.flows[id].client, s.row.value.client, s.row.value.mechanism)])
  }

  function Reply(s: State, id: nat): State {
    if id !in s.flows || !s.flows[id].Posted? then s
    else
      var f := s.flows[id];
      if !Knows(s.server, f.posted) then
        if f.mechanism.Cimd? then
          s.(flows := s.flows[id := Done(CimdRefused)],
             row := if s.row.Some? then Some(s.row.value.(mechanism := CimdRejected)) else None)
        else
          s.(flows := s.flows[id := Done(ClientEvicted)], row := None)
      else s.(flows := s.flows[id := Done(if f.posted == f.client then Connected else ExchangeFailed)])
  }

  datatype Event = Initiates(id: nat) | CallsBack(id: nat) | Replies(id: nat) | Evicts(number: nat)

  function Step(s: State, e: Event): State {
    match e
    case Initiates(id) => Initiate(s, id)
    case CallsBack(id) => Callback(s, id)
    case Replies(id) => Reply(s, id)
    case Evicts(n) => s.(server := s.server.(live := s.server.live - {n}))
  }

  function Run(s: State, es: seq<Event>): State
    decreases |es|
  {
    if es == [] then s else Run(Step(s, es[0]), es[1..])
  }

  // --- Connects that do not overlap ---------------------------------------------------------

  function Connect(s: State, id: nat): State {
    Reply(Callback(Initiate(s, id), id), id)
  }

  function OutcomeOf(s: State, id: nat): Outcome {
    ConnectTable(s, id);
    Connect(s, id).flows[id].outcome
  }

  /** Registrations are numbered below `next`, so a new one is always known. */
  predicate Sound(s: State) {
    && (forall n :: n in s.server.live ==> n < s.server.next)
    && (s.row.Some? && s.row.value.client.DocumentUrl? ==> !s.row.value.mechanism.Dcr?)
    && (s.row.Some? && s.row.value.mechanism.Cimd? ==> s.row.value.client.DocumentUrl?)
    && (s.row.Some? && s.row.value.client.Registered? ==> s.row.value.client.number < s.server.next)
  }

  /** Every run of steps, overlapping or not, leaves a sound state: what follows holds from whatever row has been
      reached. */
  lemma {:induction false} RunKeepsSound(s: State, es: seq<Event>)
    requires Sound(s)
    ensures Sound(Run(s, es))
    decreases |es|
  {
    if es != [] {
      StepKeepsSound(s, es[0]);
      RunKeepsSound(Step(s, es[0]), es[1..]);
    }
  }

  lemma StepKeepsSound(s: State, e: Event)
    requires Sound(s)
    ensures Sound(Step(s, e))
  {
  }

  /** How far the row is from a working registration. */
  function Rank(s: State): nat {
    match s.row
    case None => 2
    case Some(ClientRow(client, Dcr)) => if Knows(s.server, client) then 0 else 3
    case Some(ClientRow(_, Cimd)) => 2
    case Some(ClientRow(_, CimdRejected)) => 1
  }

  /** Whether a Connect uses the row it finds. */
  predicate Usable(s: State) {
    s.row.Some? && s.row.value.mechanism != CimdRejected
  }

  function Verdict(s: State): Outcome {
    if Usable(s) then
      if Knows(s.server, s.row.value.client) then Connected
      else if s.row.value.mechanism.Cimd? then CimdRefused
      else ClientEvicted
    else if s.row.None? && s.offers && s.server.advertises then
      if s.server.honours then Connected else CimdRefused
    else if s.server.registers then Connected
    else DiscoveryFailed
  }

  function RowAfter(s: State): Option<ClientRow> {
    match Verdict(s)
    case CimdRefused => Some(ClientRow(if Usable(s) then s.row.value.client else DocumentUrl, CimdRejected))
    case Connected =>
      if Usable(s) then s.row
      else if s.row.None? && s.offers && s.server.advertises then Some(ClientRow(DocumentUrl, Cimd))
      else Some(ClientRow(Registered(s.server.next), Dcr))
    case ClientEvicted => None
    case _ => s.row
  }

  /** What a Connect does, case by case: the outcome and the row it leaves. Only a registration changes the server. */
  lemma ConnectTable(s: State, id: nat)
    ensures var t := Connect(s, id);
            && t.flows == s.flows[id := Done(Verdict(s))] && t.row == RowAfter(s) && t.offers == s.offers
            && t.server == if Verdict(s).Connected? && RowAfter(s) == Some(ClientRow(Registered(s.server.next), Dcr))
                              && !Usable(s)
                           then s.server.(live := s.server.live + {s.server.next}, next := s.server.next + 1)
                           else s.server
  {
  }

  lemma ConnectKeepsSound(s: State, id: nat)
    requires Sound(s)
    ensures Sound(Connect(s, id))
    ensures OutcomeOf(s, id) == Connected ==> OutcomeOf(Connect(s, id), id) == Connected
  {
    hide Connect;
    ConnectTable(s, id);
    ConnectTable(Connect(s, id), id);
  }

  /** Two Connects in a row never both end in a CIMD refusal, whatever the server advertises, honours or registers, and
      however many registrations it evicts in between. */
  lemma NoTwoRefusalsInARow(s: State, first: nat, evicted: set<nat>, second: nat)
    requires Sound(s) && OutcomeOf(s, first) == CimdRefused
    ensures var t := Connect(s, first);
            OutcomeOf(t.(server := t.server.(live := t.server.live - evicted)), second) != CimdRefused
  {
    hide Connect;
    ConnectTable(s, first);
    var t := Connect(s, first);
    ConnectTable(t.(server := t.server.(live := t.server.live - evicted)), second);
  }

  /** A Connect that fails brings the row nearer to a working registration, provided that the server registers clients
      and does not honour CIMD. */
  lemma FailureLowersRank(s: State, id: nat)
    requires Sound(s) && s.server.registers && !s.server.honours
    ensures OutcomeOf(s, id) != Connected ==> Rank(Connect(s, id)) < Rank(s)
    ensures Rank(s) <= 1 ==> OutcomeOf(s, id) == Connected
  {
    hide Connect;
    ConnectTable(s, id);
  }

  /** n Connects one after the other, the last outcome last. */
  function Outcomes(s: State, ids: seq<nat>): (os: seq<Outcome>)
    ensures |os| == |ids|
    decreases |ids|
  {
    if ids == [] then [] else [OutcomeOf(s, ids[0])] + Outcomes(Connect(s, ids[0]), ids[1..])
  }

  /** The documented fallback: on a server that advertises CIMD, always refuses it and accepts registrations, the third
      Connect at the latest succeeds from any row, and so does every later one. */
  lemma {:induction false} FallbackTerminates(s: State, ids: seq<nat>, i: nat)
    requires Sound(s) && s.server.registers && !s.server.honours
    requires Rank(s) <= i + 1 && i < |ids|
    ensures Outcomes(s, ids)[i] == Connected
    decreases |ids|
  {
    hide Connect;
    ConnectTable(s, ids[0]);
    ConnectKeepsSound(s, ids[0]);
    FailureLowersRank(s, ids[0]);
    if i > 0 {
      if OutcomeOf(s, ids[0]) == Connected {
        ConnectedStays(Connect(s, ids[0]), ids[1..], i - 1, ids[0]);
      } else {
        FallbackTerminates(Connect(s, ids[0]), ids[1..], i - 1);
      }
    }
  }

  lemma {:induction false} ConnectedStays(s: State, ids: seq<nat>, i: nat, last: nat)
    requires Sound(s) && OutcomeOf(s, last) == Connected && i < |ids|
    ensures Outcomes(s, ids)[i] == Connected
    decreases |ids|
  {
    hide Connect;
    ConnectTable(s, last);
    ConnectTable(s, ids[0]);
    ConnectKeepsSound(s, ids[0]);
    if i > 0 {
      ConnectedStays(Connect(s, ids[0]), ids[1..], i - 1, ids[0]);
    }
  }

  lemma ThirdConnectSucceeds(s: State, ids: seq<nat>, i: nat)
    requires Sound(s) && s.server.registers && !s.server.honours && 2 <= i < |ids|
    ensures Outcomes(s, ids)[i] == Connected
  {
    FallbackTerminates(s, ids, i);
  }

  /** A registration that fails keeps the marker, so CIMD is not tried again. */
  lemma FailedRegistrationKeepsMarker(s: State, id: nat)
    requires s.row.Some? && s.row.value.mechanism == CimdRejected && !s.server.registers
    ensures OutcomeOf(s, id) == DiscoveryFailed && Connect(s, id).row == s.row
  {
    ConnectTable(s, id);
  }

  // --- Overlapping Connects ------------------------------------------------------------------

  function StepsOf(id: nat): seq<Event> {
    [Initiates(id), CallsBack(id), Replies(id)]
  }

  /** `es` runs through `xs` and `ys`, each in its order, interleaved in any way and with any evictions in between. */
  predicate Interleaves(es: seq<Event>, xs: seq<Event>, ys: seq<Event>)
    decreases |es|
  {
    if es == [] then xs == [] && ys == []
    else
      || (es[0].Evicts? && Interleaves(es[1..], xs, ys))
      || (xs != [] && es[0] == xs[0] && Interleaves(es[1..], xs[1..], ys))
      || (ys != [] && es[0] == ys[0] && Interleaves(es[1..], xs, ys[1..]))
  }

  predicate Precede(es: seq<Event>, early: set<Event>, late: set<Event>) {
    forall i, j :: 0 <= i < |es| && 0 <= j < |es| && es[i] in early && es[j] in late ==> i < j
  }

  /** Both Connects have been initiated when the first reply is handled. */
  predicate Overlapping(es: seq<Event>, a: nat, b: nat) {
    Precede(es, {Initiates(a), Initiates(b)}, {Replies(a), Replies(b)})
  }

  /** Both callbacks have read the row when the first reply is handled. */
  predicate BothReadFirst(es: seq<Event>, a: nat, b: nat) {
    Precede(es, {CallsBack(a), CallsBack(b)}, {Replies(a), Replies(b)})
  }

  /** How `id` ends beside `other`: a refusal, unless the other one was refused before this one read the row. */
  function EndOf(es: seq<Event>, id: nat, other: nat): Outcome {
    if BothReadFirst(es, id, other) || Precede(es, {Replies(id)}, {Replies(other)}) then CimdRefused else ClientEvicted
  }

  function Marked(both: bool): Option<ClientRow> {
    if both then Some(ClientRow(DocumentUrl, CimdRejected)) else None
  }

  /** Two Connects overlap on a server that refuses CIMD, with no row or a CIMD row to begin with, their steps
      interleaved in any way. The marker survives if and only if both callbacks read the row before the first refusal
      was recorded. Otherwise the later refusal is taken for an eviction and deletes it. */
  lemma MarkerSurvivesExactly(s: State, es: seq<Event>, a: nat, b: nat)
    requires s.row.None? || s.row == Some(ClientRow(DocumentUrl, Cimd))
    requires s.offers && s.server.advertises && !s.server.honours && a != b
    requires Interleaves(es, StepsOf(a), StepsOf(b)) && Overlapping(es, a, b)
    ensures var t := Run(s, es);
            && t.row == Marked(BothReadFirst(es, a, b))
            && t.flows == s.flows[a := Done(EndOf(es, a, b))][b := Done(EndOf(es, b, a))]
            && t.server == s.server.(live := t.server.live) && t.offers == s.offers
  {
    assert Waiting(s, s.flows, a, b, 0, 0);
    MarkerFrom(s, s.flows, es, a, b, 0, 0);
  }

  /** What a flow that has made `n` of its steps looks like before any reply. */
  function StageAfter(n: nat): Stage {
    if n == 1 then Sent(DocumentUrl) else Posted(DocumentUrl, DocumentUrl, Cimd)
  }

  /** The flows `a` and `b` have made `m` and `n` steps and none has been answered; `flows` are the others. */
  predicate Waiting(s: State, flows: map<nat, Stage>, a: nat, b: nat, m: nat, n: nat) {
    && s.offers && s.server.advertises && !s.server.honours
    && ((m == 0 && n == 0 && s.row.None?) || s.row == Some(ClientRow(DocumentUrl, Cimd)))
    && s.flows == Both(flows, a, b, m, n)
  }

  function Both(flows: map<nat, Stage>, a: nat, b: nat, m: nat, n: nat): map<nat, Stage> {
    var one := if m == 0 then flows else flows[a := StageAfter(m)];
    if n == 0 then one else one[b := StageAfter(n)]
  }

  lemma {:induction false} InterleavesMembers(es: seq<Event>, xs: seq<Event>, ys: seq<Event>)
    requires Interleaves(es, xs, ys)
    ensures forall e :: e in xs || e in ys ==> e in es
    ensures forall e :: e in es ==> e.Evicts? || e in xs || e in ys
    decreases |es|
  {
    if es != [] {
      assert es == [es[0]] + es[1..];
      assert xs != [] ==> xs == [xs[0]] + xs[1..];
      assert ys != [] ==> ys == [ys[0]] + ys[1..];
      if es[0].Evicts? && Interleaves(es[1..], xs, ys) {
        InterleavesMembers(es[1..], xs, ys);
      } else if xs != [] && es[0] == xs[0] && Interleaves(es[1..], xs[1..], ys) {
        InterleavesMembers(es[1..], xs[1..], ys);
      } else {
        InterleavesMembers(es[1..], xs, ys[1..]);
      }
    }
  }

  lemma {:induction false} InterleavesSwap(es: seq<Event>, xs: seq<Event>, ys: seq<Event>)
    requires Interleaves(es, xs, ys)
    ensures Interleaves(es, ys, xs)
    decreases |es|
  {
    if es != [] {
      if es[0].Evicts? && Interleaves(es[1..], xs, ys) {
        InterleavesSwap(es[1..], xs, ys);
      } else if xs != [] && es[0] == xs[0] && Interleaves(es[1..], xs[1..], ys) {
        InterleavesSwap(es[1..], xs[1..], ys);
      } else {
        InterleavesSwap(es[1..], xs, ys[1..]);
      }
    }
  }

  /** An event that is not among the late ones can be passed over; a late one must come after all early ones. */
  lemma PrecedeTail(es: seq<Event>, early: set<Event>, late: set<Event>)
    requires es != []
    ensures es[0] !in late ==> (Precede(es, early, late) <==> Precede(es[1..], early, late))
    ensures (es[0] in late && es[0] !in early) ==>
              (Precede(es, early, late) <==> forall e :: e in early ==> e !in es[1..])
  {
    assert forall i :: 0 <= i < |es[1..]| ==> es[1..][i] == es[i + 1];
    assert forall i :: 0 < i < |es| ==> es[i] == es[1..][i - 1];
    if es[0] !in late && Precede(es, early, late) {
      forall i, j | 0 <= i < |es[1..]| && 0 <= j < |es[1..]| && es[1..][i] in early && es[1..][j] in late
        ensures i < j
      {
        assert es[i + 1] in early && es[j + 1] in late;
      }
    }
    if es[0] in late && Precede(es, early, late) {
      forall i | 0 <= i < |es[1..]| ensures es[1..][i] !in early {
        assert es[1..][i] == es[i + 1];
      }
    }
  }

  lemma TailKeepsOrder(es: seq<Event>, a: nat, b: nat)
    requires es != [] && es[0] != Replies(a) && es[0] != Replies(b)
    ensures Overlapping(es, a, b) == Overlapping(es[1..], a, b)
    ensures BothReadFirst(es, a, b) == BothReadFirst(es[1..], a, b)
    ensures EndOf(es, a, b) == EndOf(es[1..], a, b)
  {
    hide Precede;
    PrecedeTail(es, {Initiates(a), Initiates(b)}, {Replies(a), Replies(b)});
    PrecedeTail(es, {CallsBack(a), CallsBack(b)}, {Replies(a), Replies(b)});
    PrecedeTail(es, {Replies(a)}, {Replies(b)});
  }

  lemma SwapKeepsOrder(es: seq<Event>, a: nat, b: nat)
    ensures Overlapping(es, a, b) == Overlapping(es, b, a) && BothReadFirst(es, a, b) == BothReadFirst(es, b, a)
  {
    assert {Initiates(a), Initiates(b)} == {Initiates(b), Initiates(a)};
    assert {CallsBack(a), CallsBack(b)} == {CallsBack(b), CallsBack(a)};
    assert {Replies(a), Replies(b)} == {Replies(b), Replies(a)};
  }

  /** One step of a flow, before any reply. */
  lemma FlowMoves(s: State, flows: map<nat, Stage>, a: nat, b: nat, m: nat, n: nat)
    requires Waiting(s, flows, a, b, m, n) && a != b && m < 2 && n <= 2
    ensures Waiting(Step(s, StepsOf(a)[m]), flows, a, b, m + 1, n)
    ensures Step(s, StepsOf(a)[m]).server == s.server
  {
  }

  lemma WaitingSwap(s: State, flows: map<nat, Stage>, a: nat, b: nat, m: nat, n: nat)
    requires Waiting(s, flows, a, b, m, n) && a != b
    ensures Waiting(s, flows, b, a, n, m)
  {
  }

  ghost predicate EndsWell(s: State, t: State, flows: map<nat, Stage>, es: seq<Event>, a: nat, b: nat) {
    && t.row == Marked(BothReadFirst(es, a, b))
    && t.flows == flows[a := Done(EndOf(es, a, b))][b := Done(EndOf(es, b, a))]
    && t.server == s.server.(live := t.server.live) && t.offers == s.offers
  }

  lemma EndsSwap(s: State, t: State, flows: map<nat, Stage>, es: seq<Event>, a: nat, b: nat)
    requires EndsWell(s, t, flows, es, a, b) && a != b
    ensures EndsWell(s, t, flows, es, b, a)
  {
    hide Overlapping, BothReadFirst, EndOf;
    SwapKeepsOrder(es, a, b);
  }

  lemma {:induction false} EvictionsOnly(s: State, es: seq<Event>)
    requires Interleaves(es, [], [])
    ensures Run(s, es) == s.(server := s.server.(live := Run(s, es).server.live))
    decreases |es|
  {
    if es != [] { EvictionsOnly(Step(s, es[0]), es[1..]); }
  }

  /** The rest of a flow after the other one was refused: `read` is the mechanism that its callback reads. */
  lemma {:induction false} OtherFinishes(s: State, es: seq<Event>, id: nat, n: nat, read: Mechanism)
    requires !s.server.honours && s.row == Marked(true) && id in s.flows
    requires (n == 1 && s.flows[id] == Sent(DocumentUrl) && read == CimdRejected)
          || (n == 2 && s.flows[id] == Posted(DocumentUrl, DocumentUrl, read) && read != Dcr)
    requires Interleaves(es, [], StepsOf(id)[n..])
    ensures var t := Run(s, es);
            && t.row == Marked(read == Cimd)
            && t.flows == s.flows[id := Done(if read == Cimd then CimdRefused else ClientEvicted)]
            && t.server == s.server.(live := t.server.live) && t.offers == s.offers
    decreases |es|
  {
    var t := Step(s, es[0]);
    if es[0].Evicts? {
      OtherFinishes(t, es[1..], id, n, read);
    } else if n == 1 {
      OtherFinishes(t, es[1..], id, 2, read);
    } else {
      EvictionsOnly(t, es[1..]);
    }
  }

  /** How the order looks from the first reply on. */
  lemma OrderAtFirstReply(es: seq<Event>, a: nat, b: nat, n: nat)
    requires a != b && es != [] && es[0] == Replies(a) && n <= 2
    requires Interleaves(es[1..], [], StepsOf(b)[n..]) && Overlapping(es, a, b)
    ensures n >= 1 && (BothReadFirst(es, a, b) <==> n == 2)
    ensures EndOf(es, a, b) == CimdRefused && EndOf(es, b, a) == if n == 2 then CimdRefused else ClientEvicted
  {
    hide Precede;
    InterleavesMembers(es[1..], [], StepsOf(b)[n..]);
    PrecedeTail(es, {Initiates(a), Initiates(b)}, {Replies(a), Replies(b)});
    PrecedeTail(es, {CallsBack(a), CallsBack(b)}, {Replies(a), Replies(b)});
    PrecedeTail(es, {Replies(b)}, {Replies(a)});
    OnlyFirst(es, Replies(a), Replies(b));
    SwapKeepsOrder(es, a, b);
    StepsLeft(b, n);
  }

  lemma StepsLeft(id: nat, n: nat)
    requires n <= 2
    ensures var left := StepsOf(id)[n..];
            && Replies(id) in left && (CallsBack(id) in left <==> n <= 1) && (Initiates(id) in left <==> n == 0)
            && forall e :: e in left ==> e in StepsOf(id)
  {
    var left := StepsOf(id)[n..];
    assert left[|left| - 1] == Replies(id);
    assert n <= 1 ==> left[1 - n] == CallsBack(id);
    assert n == 0 ==> left[0] == Initiates(id);
  }

  lemma OnlyFirst(es: seq<Event>, e: Event, f: Event)
    requires es != [] && es[0] == e && e !in es[1..] && e != f
    ensures Precede(es, {e}, {f})
  {
    assert forall i :: 0 < i < |es| ==> es[i] == es[1..][i - 1];
  }

  lemma FirstReply(s: State, flows: map<nat, Stage>, es: seq<Event>, a: nat, b: nat, n: nat)
    requires Waiting(s, flows, a, b, 2, n) && a != b && n <= 2 && es != []
    requires es[0] == Replies(a) && Interleaves(es[1..], [], StepsOf(b)[n..]) && Overlapping(es, a, b)
    ensures EndsWell(s, Run(s, es), flows, es, a, b)
  {
    hide Overlapping, BothReadFirst, EndOf, Interleaves;
    OrderAtFirstReply(es, a, b, n);
    var t := Step(s, es[0]);
    assert t.row == Marked(true) && t.flows == s.flows[a := Done(CimdRefused)] && t.server == s.server;
    OtherFinishes(t, es[1..], b, n, if n == 2 then Cimd else CimdRejected);
  }

  lemma {:induction false} MarkerFrom(s: State, flows: map<nat, Stage>, es: seq<Event>, a: nat, b: nat, m: nat, n: nat)
    requires Waiting(s, flows, a, b, m, n) && a != b && m <= 2 && n <= 2
    requires Interleaves(es, StepsOf(a)[m..], StepsOf(b)[n..]) && Overlapping(es, a, b)
    ensures EndsWell(s, Run(s, es), flows, es, a, b)
    decreases |es|, 1
  {
    hide Step, Waiting, Overlapping, BothReadFirst, EndOf;
    var (xs, ys) := (StepsOf(a)[m..], StepsOf(b)[n..]);
    if es[0].Evicts? && Interleaves(es[1..], xs, ys) {
      EvictionWaits(s, flows, a, b, m, n, es[0].number);
      TailKeepsOrder(es, a, b);
      TailKeepsOrder(es, b, a);
      MarkerFrom(Step(s, es[0]), flows, es[1..], a, b, m, n);
    } else if es[0] == xs[0] && Interleaves(es[1..], xs[1..], ys) {
      MarkerNext(s, flows, es, a, b, m, n);
    } else {
      InterleavesSwap(es[1..], xs, ys[1..]);
      WaitingSwap(s, flows, a, b, m, n);
      SwapKeepsOrder(es, a, b);
      MarkerNext(s, flows, es, b, a, n, m);
      EndsSwap(s, Run(s, es), flows, es, b, a);
    }
  }

  lemma EvictionWaits(s: State, flows: map<nat, Stage>, a: nat, b: nat, m: nat, n: nat, number: nat)
    requires Waiting(s, flows, a, b, m, n)
    ensures var t := Step(s, Evicts(number));
            Waiting(t, flows, a, b, m, n) && t.server == s.server.(live := t.server.live) && t.offers == s.offers
  {
  }

  /** The next event is a step of `a`. */
  lemma {:induction false} MarkerNext(s: State, flows: map<nat, Stage>, es: seq<Event>, a: nat, b: nat, m: nat, n: nat)
    requires Waiting(s, flows, a, b, m, n) && a != b && m <= 2 && n <= 2 && es != []
    requires es[0] == StepsOf(a)[m] && Overlapping(es, a, b)
    requires Interleaves(es[1..], StepsOf(a)[m + 1..], StepsOf(b)[n..])
    ensures EndsWell(s, Run(s, es), flows, es, a, b)
    decreases |es|, 0
  {
    if m < 2 {
      hide Step, Waiting, Overlapping, BothReadFirst, EndOf;
      FlowMoves(s, flows, a, b, m, n);
      TailKeepsOrder(es, a, b);
      TailKeepsOrder(es, b, a);
      MarkerFrom(Step(s, es[0]), flows, es[1..], a, b, m + 1, n);
    } else {
      assert StepsOf(a)[m + 1..] == [];
      FirstReply(s, flows, es, a, b, n);
    }
  }

  /** `n` rounds of two Connects, in each of which the second callback comes after the first refusal. */
  function Rounds(n: nat): seq<Event> {
    if n == 0 then [] else LateRound(2 * n, 2 * n + 1) + Rounds(n - 1)
  }

  function LateRound(a: nat, b: nat): seq<Event> {
    [Initiates(a), Initiates(b), CallsBack(a), Replies(a), CallsBack(b), Replies(b)]
  }

  lemma LateRoundOrder(a: nat, b: nat)
    requires a != b
    ensures Interleaves(LateRound(a, b), StepsOf(a), StepsOf(b))
    ensures Overlapping(LateRound(a, b), a, b) && !BothReadFirst(LateRound(a, b), a, b)
  {
    var (es, xs, ys) := (LateRound(a, b), StepsOf(a), StepsOf(b));
    assert xs[1..] == [CallsBack(a), Replies(a)] && xs[1..][1..] == [Replies(a)] && xs[1..][1..][1..] == [];
    assert ys[1..] == [CallsBack(b), Replies(b)] && ys[1..][1..] == [Replies(b)] && ys[1..][1..][1..] == [];
    var (e1, e2) := (es[1..], es[1..][1..]);
    var (e3, e4) := (e2[1..], e2[1..][1..]);
    assert e1[0] == Initiates(b) && e2[0] == CallsBack(a) && e3[0] == Replies(a) && e4[0] == CallsBack(b);
    assert Interleaves(e4[1..], [], [Replies(b)]) by {
      assert e4[1..][0] == Replies(b) && e4[1..][1..] == [];
    }
    assert Interleaves(e4, [], ys[1..]);
    assert Interleaves(e3, [Replies(a)], ys[1..]);
    assert Interleaves(e2, xs[1..], ys[1..]);
    assert Interleaves(e1, xs[1..], ys);
    assert es[3] == Replies(a) && es[4] == CallsBack(b);
  }

  predicate Refused(s: State, id: nat) {
    id in s.flows && s.flows[id] in {Done(CimdRefused), Done(ClientEvicted)}
  }

  predicate Refuses(s: State) {
    s.row.None? && s.offers && s.server.advertises && !s.server.honours
  }

  predicate SameFlow(s: State, t: State, id: nat) {
    (id in s.flows <==> id in t.flows) && (id in s.flows ==> t.flows[id] == s.flows[id])
  }

  lemma RoundRefuses(s: State, a: nat, b: nat)
    requires Refuses(s) && a != b
    ensures var t := Run(s, LateRound(a, b));
            && Refuses(t) && t.server == s.server.(live := t.server.live) && Refused(t, a) && Refused(t, b)
            && forall id: nat :: id != a && id != b ==> SameFlow(s, t, id)
  {
    hide Run, Step, Interleaves, Overlapping, BothReadFirst, LateRound;
    LateRoundOrder(a, b);
    MarkerSurvivesExactly(s, LateRound(a, b), a, b);
  }

  /** So non-overlap cannot be dropped: pairs of overlapping Connects can be refused for ever. After n rounds all their
      2n Connects have been, and the next one finds things as the first one did. */
  lemma {:induction false} OverlapCanStarve(s: State, n: nat)
    requires Refuses(s)
    ensures var t := Run(s, Rounds(n));
            && Refuses(t) && t.server == s.server.(live := t.server.live)
            && (forall id: nat :: 2 <= id < 2 * n + 2 ==> Refused(t, id))
            && (forall id: nat :: !(2 <= id < 2 * n + 2) ==> SameFlow(s, t, id))
    decreases n
  {
    if n > 0 {
      hide Run, Step, LateRound, Refuses;
      var (a, b) := (2 * n, 2 * n + 1);
      var next := Run(s, LateRound(a, b));
      RoundRefuses(s, a, b);
      RunAppend(s, LateRound(a, b), Rounds(n - 1));
      OverlapCanStarve(next, n - 1);
      var t := Run(s, Rounds(n));
      assert SameFlow(next, t, a) && SameFlow(next, t, b);
      forall id: nat | !(2 <= id < 2 * n + 2) ensures SameFlow(s, t, id) {
        assert SameFlow(s, next, id) && SameFlow(next, t, id);
      }
    }
  }

  lemma {:induction false} RunAppend(s: State, a: seq<Event>, b: seq<Event>)
    ensures Run(s, a + b) == Run(Run(s, a), b)
    decreases |a|
  {
    if a == [] {
      assert a + b == b;
    } else {
      assert (a + b)[1..] == a[1..] + b;
      RunAppend(Step(s, a[0]), a[1..], b);
    }
  }
}
