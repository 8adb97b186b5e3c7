/** The OAuth authorization-code flow of api/oauth_authcode.py as steps: initiate mints a signed state, the callback
    verifies it, checks the issuer and posts the code, the reply is turned into a stored token row. Signatures and S256
    are ideal: only a state that was minted verifies, and a challenge determines its verifier. */
module AuthCodeFlow {
  import opened Options
  import opened Text

  // --- RFC 9207 issuer check ------------------------------------------------------------

  /** What splitting a URL yields. */
  datatype Url = Unparseable | Url(scheme: string, netloc: string, path: string)

  function Origin(u: Url): Option<string> {
    if u.Unparseable? || u.scheme == "" || u.netloc == "" then None
    else Some(Lower(u.scheme) + "://" + Lower(u.netloc))
  }

  /** The callback's issuer check, branch by branch. */
  predicate IssuerAccepted(received: Option<Url>, expected: Option<string>) {
    if received.None? then true
    else if expected.None? then true
    else
      var origin := Origin(received.value);
      !(origin.None? || origin.value != expected.value)
  }

  /** The scheme of a split URL holds no colon. */
  predicate Split(u: Url) {
    u.Url? ==> ':' !in u.scheme
  }

  predicate HasOrigin(u: Url) {
    u.Url? && u.scheme != "" && u.netloc != ""
  }

  predicate SameOrigin(u: Url, v: Url) {
    && HasOrigin(u) && HasOrigin(v)
    && Lower(u.scheme) == Lower(v.scheme) && Lower(u.netloc) == Lower(v.netloc)
  }

  /** The printed origin, a scheme, "://" and a host in one string, loses nothing: two URLs print alike if and only if
      schemes and hosts agree up to case. */
  lemma OriginsAgreeExactly(u: Url, v: Url)
    requires Split(u) && Split(v)
    ensures Origin(u).Some? <==> HasOrigin(u)
    ensures HasOrigin(u) ==> (Origin(u) == Origin(v) <==> SameOrigin(u, v))
  {
    if HasOrigin(u) && Origin(u) == Origin(v) {
      var (a, b) := (Lower(u.scheme), Lower(v.scheme));
      var text := a + "://" + Lower(u.netloc);
      assert text == b + "://" + Lower(v.netloc);
      assert text[|a|] == ':' && text[|b|] == ':' && a <= text && b <= text;
      FirstColon(a, b, text);
      FirstColon(b, a, text);
      assert a == text[..|a|] == b;
      assert Lower(u.netloc) == text[|a| + 3..] == Lower(v.netloc);
    }
  }

  /** Section 2.4 of RFC 9207, given the URL the user was sent to: a response is accepted if and only if it names no
      issuer, or that URL has no origin to compare with, or the named issuer has the same origin. */
  lemma IssuerAcceptedExactly(received: Option<Url>, authorize: Url)
    requires Split(authorize) && (received.Some? ==> Split(received.value))
    ensures IssuerAccepted(received, Origin(authorize))
       <==> received.None? || !HasOrigin(authorize) || SameOrigin(received.value, authorize)
  {
    if received.Some? {
      OriginsAgreeExactly(received.value, authorize);
    }
  }

  // --- State ---------------------------------------------------------------------------

  /** `secrets.token_urlsafe(64)`; section 4.1 of RFC 7636 asks for 43 to 128 characters. */
  type Verifier = v: string | |v| == 86 witness seq(86, (_: nat) => 'A')

  datatype Challenge = S256(verifier: string)

  /** The unique constraint of the token table is on this key. */
  datatype Key = Key(tenant: nat, user: nat, server: nat)

  /** States minted before PKCE was added have neither a verifier nor an expected issuer. */
  datatype Claims = Claims(key: Key, verifier: Option<string>, expectedIss: Option<string>, nonce: nat, iat: int)

  /** What the browser was sent away with. */
  datatype Request = Request(challenge: Option<Challenge>, authorize: Url)

  datatype StateParam = NoState | Garbage | Token(claims: Claims)

  /** One post of a code to a token endpoint. */
  datatype Exchange = Exchange(claims: Claims, code: string, verifier: Option<string>, iss: Option<Url>, at: real,
                               tokenUrl: string, dcr: bool)

  datatype Grant = Grant(post: Exchange, access: string)

  datatype Phase =
    | Posted(post: Exchange)
    | Writing(grant: Grant, found: Option<nat>)   // the existing row, if any, has been read
    | Ended(status: nat)

  datatype TokenRow = TokenRow(key: Key, access: string)

  /** An upstream server; `spec` is its authorization-code configuration. */
  datatype Server = Server(tenant: nat, spec: Option<Spec>)

  datatype Spec = Spec(tokenUrl: string, dcr: bool)

  /** `requests`, `posts` and `grants` are history: every state minted, every code posted, every token granted. */
  datatype State = State(
    now: real,
    nonce: nat,
    servers: map<nat, Server>,
    calls: map<nat, Phase>,
    tokens: map<nat, TokenRow>,
    nextRow: nat,
    requests: map<Claims, Request>,
    posts: set<Exchange>,
    grants: set<Grant>)

  datatype Answer = Unreachable | Rejected(invalidClient: bool) | NotJson | Payload(access: Option<string>)

  datatype Redirect = Redirect(error: string, code: string, state: StateParam, iss: Option<Url>)

  /** `authorize` is the endpoint the resolver found, or nothing when discovery failed; `credentials` is nothing when
      the client row or the stored secrets are missing, and else the token endpoint that the client row names, which
      counts only in DCR mode. */
  datatype Event =
    | Tick(seconds: real)
    | Configure(server: nat, entry: Server)
    | Initiates(key: Key, verifier: Verifier, authorize: Option<Url>)
    | CallsBack(id: nat, redirect: Redirect, credentials: Option<string>)
    | Answers(id: nat, answer: Answer)
    | Commits(id: nat)
    | Disconnects(key: Key)

  const STATE_TTL := 600

  // --- Steps ---------------------------------------------------------------------------

  predicate Configured(s: State, key: Key) {
    key.server in s.servers && s.servers[key.server].tenant == key.tenant && s.servers[key.server].spec.Some?
  }

  predicate Verifies(s: State, c: Claims) {
    c in s.requests && c.iat as real <= s.now < (c.iat + STATE_TTL) as real
  }

  /** The state that an initiate call would mint now. */
  function Minted(s: State, key: Key, verifier: Verifier, authorize: Url): Claims {
    Claims(key, Some(verifier), Origin(authorize), s.nonce, s.now.Floor)
  }

  function Initiate(s: State, key: Key, verifier: Verifier, authorize: Option<Url>): (t: State)
    ensures t == s.(nonce := t.nonce, requests := t.requests)
  {
    if !Configured(s, key) || authorize.None? then s
    else
      s.(nonce := s.nonce + 1,
         requests := s.requests[Minted(s, key, verifier, authorize.value)
                                := Request(Some(S256(verifier)), authorize.value)])
  }

  function End(s: State, id: nat, status: nat): State {
    s.(calls := s.calls[id := Ended(status)])
  }

  /** An empty verifier is left out of the form. */
  function SentVerifier(c: Claims): Option<string> {
    if c.verifier == Some("") then None else c.verifier
  }

  /** In DCR mode the client row, which was made when the client was registered, says where to post. */
  function Endpoint(spec: Spec, rowEndpoint: string): string {
    if spec.dcr then rowEndpoint else spec.tokenUrl
  }

  function Post(s: State, r: Redirect, rowEndpoint: string): Exchange
    requires r.state.Token? && Configured(s, r.state.claims.key)
  {
    var c := r.state.claims;
    var spec := s.servers[c.key.server].spec.value;
    Exchange(c, r.code, SentVerifier(c), r.iss, s.now, Endpoint(spec, rowEndpoint), spec.dcr)
  }

  function Callback(s: State, id: nat, r: Redirect, credentials: Option<string>): (t: State)
    ensures t == s.(calls := t.calls, posts := t.posts) && s.posts <= t.posts
  {
    if id in s.calls then s
    else if r.error != "" then End(s, id, 400)
    else if r.code == "" || r.state.NoState? then End(s, id, 400)
    else if r.state.Garbage? || !Verifies(s, r.state.claims) then End(s, id, 400)
    else if !IssuerAccepted(r.iss, r.state.claims.expectedIss) then End(s, id, 400)
    else if !Configured(s, r.state.claims.key) then End(s, id, 404)
    else if credentials.None? then End(s, id, if s.servers[r.state.claims.key.server].spec.value.dcr then 409 else 500)
    else
      var post := Post(s, r, credentials.value);
      s.(calls := s.calls[id := Posted(post)], posts := s.posts + {post})
  }

  /** The row of a key. */
  ghost function RowOf(tokens: map<nat, TokenRow>, key: Key): (r: Option<nat>)
    ensures r.Some? ==> r.value in tokens && tokens[r.value].key == key
    ensures r.None? ==> forall row :: row in tokens ==> tokens[row].key != key
  {
    if exists row :: row in tokens && tokens[row].key == key then
      var row :| row in tokens && tokens[row].key == key;
      Some(row)
    else None
  }

  ghost function HandleAnswer(s: State, id: nat, a: Answer): (t: State)
    ensures t == s.(calls := t.calls, tokens := t.tokens, grants := t.grants) && s.grants <= t.grants
    ensures forall row :: row in t.tokens ==> row in s.tokens && t.tokens[row] == s.tokens[row]
    ensures forall other :: other in t.calls <==> other in s.calls
    ensures forall other :: other in t.calls && other != id ==> t.calls[other] == s.calls[other]
  {
    if id !in s.calls || !s.calls[id].Posted? then s
    else
      var post := s.calls[id].post;
      var key := post.claims.key;
      match a
      case Rejected(invalidClient) =>
        if post.dcr && invalidClient then
          End(s, id, 409).(tokens := map row | row in s.tokens && !(s.tokens[row].key.tenant == key.tenant
                                               && s.tokens[row].key.server == key.server) :: s.tokens[row])
        else End(s, id, 502)
      case Payload(Some(access)) =>
        if access == "" then End(s, id, 502)
        else s.(calls := s.calls[id := Writing(Grant(post, access), RowOf(s.tokens, key))],
                grants := s.grants + {Grant(post, access)})
      case _ => End(s, id, 502)
  }

  /** The write. A row read before and deleted since, or a row inserted since by another call, makes it fail. */
  ghost function Commit(s: State, id: nat): (t: State)
    ensures t == s.(calls := t.calls, tokens := t.tokens, nextRow := t.nextRow)
  {
    if id !in s.calls || !s.calls[id].Writing? then s
    else
      var g := s.calls[id].grant;
      match s.calls[id].found
      case Some(row) =>
        if row in s.tokens then End(s, id, 200).(tokens := s.tokens[row := s.tokens[row].(access := g.access)])
        else End(s, id, 500)
      case None =>
        if RowOf(s.tokens, g.post.claims.key).Some? then End(s, id, 500)
        else End(s, id, 200).(tokens := s.tokens[s.nextRow := TokenRow(g.post.claims.key, g.access)],
                              nextRow := s.nextRow + 1)
  }

  ghost function Step(s: State, e: Event): State {
    match e
    case Tick(seconds) => if seconds >= 0.0 then s.(now := s.now + seconds) else s
    case Configure(server, entry) => s.(servers := s.servers[server := entry])
    case Initiates(key, verifier, authorize) => Initiate(s, key, verifier, authorize)
    case CallsBack(id, redirect, credentials) => Callback(s, id, redirect, credentials)
    case Answers(id, answer) => HandleAnswer(s, id, answer)
    case Commits(id) => Commit(s, id)
    case Disconnects(key) => s.(tokens := map row | row in s.tokens && s.tokens[row].key != key :: s.tokens[row])
  }

  ghost function Run(s: State, es: seq<Event>): State
    decreases |es|
  {
    if es == [] then s else Run(Step(s, es[0]), es[1..])
  }

  // --- Invariant -----------------------------------------------------------------------

  /** A state minted by initiate: the challenge sent with it is the hash of its verifier, and its expected issuer is the
      origin of the URL the user was sent to. */
  predicate WellMinted(s: State, c: Claims, r: Request) {
    && c.nonce < s.nonce && c.iat as real <= s.now
    && (if c.verifier.Some? then
          r.challenge == Some(S256(c.verifier.value)) && c.expectedIss == Origin(r.authorize) && c.verifier.value != ""
        else r.challenge.None? && c.expectedIss.None?)
  }

  /** A code posted after every check, within 600 s of the minting of its state, with the verifier behind the
      challenge. */
  predicate WellPosted(s: State, p: Exchange) {
    && p.claims in s.requests
    && p.claims.iat as real <= p.at < (p.claims.iat + STATE_TTL) as real && p.at <= s.now
    && IssuerAccepted(p.iss, p.claims.expectedIss)
    && p.code != "" && p.verifier == p.claims.verifier
  }

  /** Some granted token accounts for this row. */
  ghost predicate Justified(s: State, row: TokenRow) {
    exists post :: Grant(post, row.access) in s.grants && post.claims.key == row.key
  }

  ghost predicate History(s: State) {
    && (forall c :: c in s.requests ==> WellMinted(s, c, s.requests[c]))
    && (forall p :: p in s.posts ==> WellPosted(s, p))
    && (forall g :: g in s.grants ==> g.post in s.posts && g.access != "")
  }

  predicate CallOk(s: State, phase: Phase) {
    match phase
    case Posted(post) => post in s.posts
    case Writing(g, found) =>
      && g in s.grants
      && (found.Some? ==> found.value < s.nextRow)
      && (found.Some? && found.value in s.tokens ==> s.tokens[found.value].key == g.post.claims.key)
    case Ended(_) => true
  }

  ghost predicate Calls(s: State) {
    forall id :: id in s.calls ==> CallOk(s, s.calls[id])
  }

  ghost predicate Rows(s: State) {
    && (forall row :: row in s.tokens ==> row < s.nextRow && Justified(s, s.tokens[row]))
    && (forall a, b :: a in s.tokens && b in s.tokens && s.tokens[a].key == s.tokens[b].key ==> a == b)
  }

  ghost predicate Inv(s: State) {
    History(s) && Calls(s) && Rows(s)
  }

  /** No call in flight and no row yet; states minted before an upgrade may be under way. */
  ghost predicate Initial(s: State) {
    && s.calls == map[] && s.tokens == map[] && s.posts == {} && s.grants == {}
    && forall c :: c in s.requests ==> c.verifier.None? && WellMinted(s, c, s.requests[c])
  }

  /** Time, history and row numbers only grow; a row keeps its key, and its number is never used again. */
  ghost predicate Grows(s: State, t: State) {
    && s.now <= t.now && s.nonce <= t.nonce && s.nextRow <= t.nextRow
    && (forall c :: c in s.requests ==> c in t.requests && t.requests[c] == s.requests[c])
    && s.posts <= t.posts && s.grants <= t.grants
    && (forall row :: row in t.tokens && row < s.nextRow ==> row in s.tokens && t.tokens[row].key == s.tokens[row].key)
  }

  lemma NonceIsNew(s: State, c: Claims)
    requires History(s) && c.nonce == s.nonce
    ensures c !in s.requests
  {
    assert c in s.requests ==> WellMinted(s, c, s.requests[c]);
  }

  /** In particular no state is minted twice: the nonce makes it new. */
  lemma StepGrows(s: State, e: Event)
    requires Inv(s)
    ensures Grows(s, Step(s, e))
  {
    hide RowOf, Callback, HandleAnswer, WellMinted, WellPosted, Justified, Origin;
    if e.Commits? && e.id in s.calls { assert CallOk(s, s.calls[e.id]); }
    if e.Initiates? && e.authorize.Some? {
      NonceIsNew(s, Minted(s, e.key, e.verifier, e.authorize.value));
    }
  }

  /** The requests after a step are the old ones and a well-minted new one. */
  lemma StepMintsWell(s: State, e: Event, c: Claims)
    requires Inv(s) && c in Step(s, e).requests
    ensures WellMinted(Step(s, e), c, Step(s, e).requests[c])
  {
    hide RowOf, Origin, Callback, HandleAnswer, Commit, WellPosted, Justified, CallOk;
    if c in s.requests {
      StepGrows(s, e);
      assert WellMinted(s, c, s.requests[c]);
    }
  }

  lemma StepPostsWell(s: State, e: Event, p: Exchange)
    requires Inv(s) && p in Step(s, e).posts
    ensures WellPosted(Step(s, e), p)
  {
    hide IssuerAccepted, RowOf, Initiate, HandleAnswer, Commit, Justified, CallOk;
    if p in s.posts {
      StepGrows(s, e);
      assert WellPosted(s, p);
    } else {
      assert WellMinted(s, p.claims, s.requests[p.claims]);
    }
  }

  lemma StepGrantsWell(s: State, e: Event, g: Grant)
    requires Inv(s) && g in Step(s, e).grants
    ensures g.post in Step(s, e).posts && g.access != ""
  {
    hide RowOf, Initiate, Callback, Commit, WellMinted, WellPosted, Justified;
    if g !in s.grants { assert CallOk(s, s.calls[e.id]); }
  }

  lemma StepKeepsHistory(s: State, e: Event)
    requires Inv(s)
    ensures History(Step(s, e))
  {
    hide Step, Inv, WellMinted, WellPosted;
    var t := Step(s, e);
    forall c | c in t.requests ensures WellMinted(t, c, t.requests[c]) { StepMintsWell(s, e, c); }
    forall p | p in t.posts ensures WellPosted(t, p) { StepPostsWell(s, e, p); }
    forall g | g in t.grants ensures g.post in t.posts && g.access != "" { StepGrantsWell(s, e, g); }
  }

  lemma GrowthKeepsCall(s: State, t: State, phase: Phase)
    requires Grows(s, t) && CallOk(s, phase)
    ensures CallOk(t, phase)
  {
  }

  lemma AnswerMovesCall(s: State, id: nat, a: Answer)
    requires Inv(s) && id in s.calls
    ensures CallOk(HandleAnswer(s, id, a), HandleAnswer(s, id, a).calls[id])
  {
    hide History, Justified;
    assert CallOk(s, s.calls[id]);
  }

  /** A call that this step moves on. */
  lemma StepMovesCall(s: State, e: Event, id: nat)
    requires Inv(s) && id in Step(s, e).calls && !(id in s.calls && s.calls[id] == Step(s, e).calls[id])
    ensures CallOk(Step(s, e), Step(s, e).calls[id])
  {
    hide History, Initiate, HandleAnswer, Justified;
    if e.Answers? && id in s.calls { AnswerMovesCall(s, id, e.answer); }
  }

  lemma StepKeepsCall(s: State, e: Event, id: nat)
    requires Inv(s) && id in Step(s, e).calls
    ensures CallOk(Step(s, e), Step(s, e).calls[id])
  {
    hide Step, History, Rows, CallOk, Grows;
    if id in s.calls && Step(s, e).calls[id] == s.calls[id] {
      StepGrows(s, e);
      GrowthKeepsCall(s, Step(s, e), s.calls[id]);
    } else {
      StepMovesCall(s, e, id);
    }
  }

  lemma StepKeepsCalls(s: State, e: Event)
    requires Inv(s)
    ensures Calls(Step(s, e))
  {
    hide Step, Inv, CallOk;
    forall id | id in Step(s, e).calls ensures CallOk(Step(s, e), Step(s, e).calls[id]) { StepKeepsCall(s, e, id); }
  }

  lemma StepKeepsRow(s: State, e: Event, row: nat)
    requires Inv(s) && row in Step(s, e).tokens
    ensures row < Step(s, e).nextRow && Justified(Step(s, e), Step(s, e).tokens[row])
  {
    hide History, Initiate, Callback, HandleAnswer;
    var t := Step(s, e);
    if row in s.tokens && t.tokens[row] == s.tokens[row] {
      StepGrows(s, e);
      var post :| Grant(post, s.tokens[row].access) in s.grants && post.claims.key == s.tokens[row].key;
      assert Grant(post, t.tokens[row].access) in t.grants;
    } else {
      assert CallOk(s, s.calls[e.id]);
      var g := s.calls[e.id].grant;
      assert Grant(g.post, t.tokens[row].access) in t.grants;
    }
  }

  lemma StepKeepsKeysUnique(s: State, e: Event, a: nat, b: nat)
    requires Inv(s) && a in Step(s, e).tokens && b in Step(s, e).tokens
    requires Step(s, e).tokens[a].key == Step(s, e).tokens[b].key
    ensures a == b
  {
    hide History, Initiate, Callback, HandleAnswer, Justified;
    if e.Commits? && e.id in s.calls { assert CallOk(s, s.calls[e.id]); }
  }

  lemma StepKeepsRows(s: State, e: Event)
    requires Inv(s)
    ensures Rows(Step(s, e))
  {
    hide Step, Inv, Justified;
    var t := Step(s, e);
    forall row | row in t.tokens ensures row < t.nextRow && Justified(t, t.tokens[row]) { StepKeepsRow(s, e, row); }
    forall a, b | a in t.tokens && b in t.tokens && t.tokens[a].key == t.tokens[b].key ensures a == b {
      StepKeepsKeysUnique(s, e, a, b);
    }
  }

  lemma {:induction false} RunKeepsInv(s: State, es: seq<Event>)
    requires Inv(s)
    ensures Inv(Run(s, es))
    decreases |es|
  {
    hide Inv, Step;
    if es != [] {
      StepKeepsInv(s, es[0]);
      RunKeepsInv(Step(s, es[0]), es[1..]);
    }
  }

  lemma StepKeepsInv(s: State, e: Event)
    requires Inv(s)
    ensures Inv(Step(s, e))
  {
    hide Step, History, Calls, Rows;
    StepKeepsHistory(s, e);
    StepKeepsCalls(s, e);
    StepKeepsRows(s, e);
  }

  // --- Results -------------------------------------------------------------------------

  /** A token obtained for exactly this row's tenant, user and server: by a code posted with every check passed, for a
      state that an initiate call of that user minted at most 600 s before. */
  ghost predicate Provenance(s: State, row: TokenRow) {
    exists post :: Grant(post, row.access) in s.grants && post.claims.key == row.key && post in s.posts
      && WellPosted(s, post) && WellMinted(s, post.claims, s.requests[post.claims])
  }

  /** In every run each stored row has that provenance, and no two rows share a key. */
  lemma TokenProvenance(s: State, es: seq<Event>)
    requires Initial(s)
    ensures var t := Run(s, es);
            && (forall row :: row in t.tokens ==> Provenance(t, t.tokens[row]))
            && (forall a, b :: a in t.tokens && b in t.tokens && t.tokens[a].key == t.tokens[b].key ==> a == b)
            && (forall p :: p in t.posts ==> WellPosted(t, p))
  {
    RunKeepsInv(s, es);
    hide Step, Run, WellPosted, WellMinted;
    var t := Run(s, es);
    forall row | row in t.tokens ensures Provenance(t, t.tokens[row]) {
      assert Justified(t, t.tokens[row]);
      var post :| Grant(post, t.tokens[row].access) in t.grants && post.claims.key == t.tokens[row].key;
      PostedFromRequest(t, post);
    }
  }

  lemma PostedFromRequest(s: State, post: Exchange)
    requires History(s) && post in s.posts
    ensures WellPosted(s, post) && WellMinted(s, post.claims, s.requests[post.claims])
  {
    assert WellPosted(s, post);
  }

  predicate InitiatesFor(e: Event, key: Key) {
    e.Initiates? && e.key == key
  }

  /** Stated on the events alone: no row is ever stored for a user and a server for which no Connect was initiated. */
  lemma RowNeedsInitiate(s: State, es: seq<Event>, row: nat)
    requires Initial(s) && s.requests == map[] && row in Run(s, es).tokens
    ensures exists i :: 0 <= i < |es| && InitiatesFor(es[i], Run(s, es).tokens[row].key)
  {
    hide Step;
    TokenProvenance(s, es);
    var t := Run(s, es);
    assert Provenance(t, t.tokens[row]);
    var post :| Grant(post, t.tokens[row].access) in t.grants && post.claims.key == t.tokens[row].key
                && post in t.posts;
    assert WellPosted(t, post);
    RequestNeedsInitiate(s, es, post.claims);
  }

  lemma {:induction false} RequestNeedsInitiate(s: State, es: seq<Event>, c: Claims)
    requires c !in s.requests && c in Run(s, es).requests
    ensures exists i :: 0 <= i < |es| && InitiatesFor(es[i], c.key)
    decreases |es|
  {
    if c in Step(s, es[0]).requests {
      assert InitiatesFor(es[0], c.key) by {
        hide Run, Callback, HandleAnswer, Commit, Origin;
      }
    } else {
      RequestNeedsInitiate(Step(s, es[0]), es[1..], c);
      var i :| 0 <= i < |es[1..]| && InitiatesFor(es[1..][i], c.key);
      assert es[i + 1] == es[1..][i];
    }
  }

  /** The response names no issuer, or none can be expected of it, or it is the one the user was sent to. States from
      before PKCE carry no expectation. */
  predicate FromRightIssuer(s: State, c: Claims, iss: Option<Url>)
    requires c in s.requests
  {
    || iss.None? || c.verifier.None? || !HasOrigin(s.requests[c].authorize)
    || SameOrigin(iss.value, s.requests[c].authorize)
  }

  /** When a callback posts the code, stated on the URL and the challenge that went out with the state: the response has
      to come from the origin the user was sent to, and the verifier posted is the one behind the challenge (section
      4.6 of RFC 7636); a state without a challenge posts none. */
  lemma CodeSentExactly(s: State, id: nat, r: Redirect, credentials: Option<string>)
    requires Inv(s) && id !in s.calls && r.state.Token?
    requires r.iss.Some? ==> Split(r.iss.value)
    requires r.state.claims in s.requests ==> Split(s.requests[r.state.claims].authorize)
    ensures var t := Step(s, CallsBack(id, r, credentials));
            var c := r.state.claims;
            && (t.calls[id].Posted? <==>
                  && r.error == "" && r.code != "" && credentials.Some? && Configured(s, c.key)
                  && c in s.requests && c.iat as real <= s.now < c.iat as real + 600.0
                  && FromRightIssuer(s, c, r.iss))
            && (t.calls[id].Posted? ==>
                  && t.posts == s.posts + {t.calls[id].post} && t.calls[id].post.code == r.code
                  && (match s.requests[c].challenge
                      case Some(S256(v)) => t.calls[id].post.verifier == Some(v)
                      case None => t.calls[id].post.verifier.None?))
            && (!t.calls[id].Posted? ==> t == s.(calls := t.calls) && t.calls[id].Ended?)
  {
    hide Calls, Rows;
    var c := r.state.claims;
    if c in s.requests {
      assert WellMinted(s, c, s.requests[c]);
      IssuerAcceptedExactly(r.iss, s.requests[c].authorize);
    }
  }

  // --- Where the code goes -----------------------------------------------------------------

  /** The configuration of a server after some steps. */
  function LastConfigured(es: seq<Event>, server: nat, before: Server): Server
    decreases |es|
  {
    if es == [] then before
    else LastConfigured(es[1..], server, if es[0].Configure? && es[0].server == server then es[0].entry else before)
  }

  lemma {:induction false} RunConfigures(s: State, es: seq<Event>, server: nat)
    requires server in s.servers
    ensures server in Run(s, es).servers
    ensures Run(s, es).servers[server] == LastConfigured(es, server, s.servers[server])
    decreases |es|
  {
    if es != [] {
      hide Initiate, Callback, HandleAnswer, Commit;
      RunConfigures(Step(s, es[0]), es[1..], server);
    }
  }

  /** With static credentials the code is posted to the token endpoint configured last, whatever happened since the
      user was sent away. So it goes where it would have gone then if and only if the configuration ends up with the
      same endpoint. In DCR mode it goes to the endpoint of the client row that the callback finds. */
  lemma CodeGoesWhereConfiguredLast(s: State, key: Key, verifier: Verifier, authorize: Url, es: seq<Event>, id: nat,
                                    r: Redirect, credentials: Option<string>)
    requires Configured(s, key) && r.state == Token(Minted(s, key, verifier, authorize))
    requires id !in Run(Step(s, Initiates(key, verifier, Some(authorize))), es).calls
    ensures var t := Step(Run(Step(s, Initiates(key, verifier, Some(authorize))), es), CallsBack(id, r, credentials));
            var last := LastConfigured(es, key.server, s.servers[key.server]);
            id in t.calls && (t.calls[id].Posted? ==>
              && last.spec.Some? && t.calls[id].post.dcr == last.spec.value.dcr
              && (if last.spec.value.dcr then credentials == Some(t.calls[id].post.tokenUrl)
                  else t.calls[id].post.tokenUrl == last.spec.value.tokenUrl))
  {
    hide Verifies, IssuerAccepted;
    RunConfigures(Step(s, Initiates(key, verifier, Some(authorize))), es, key.server);
  }

  /** A server that is reconfigured in between does get a code that another authorization server issued: the issuer
      check compares with the URL the user was sent to, not with the endpoint. */
  lemma ReconfiguredServerGetsCode(s: State, key: Key, verifier: Verifier, authorize: Url, other: string, id: nat,
                                   code: string)
    requires Configured(s, key) && id !in s.calls && code != ""
    ensures var s1 := Step(s, Initiates(key, verifier, Some(authorize)));
            var s2 := Step(s1, Configure(key.server, Server(key.tenant, Some(Spec(other, false)))));
            var r := Redirect("", code, Token(Minted(s, key, verifier, authorize)), Some(authorize));
            var t := Step(s2, CallsBack(id, r, Some("")));
            && id in t.calls && t.calls[id].Posted?
            && t.calls[id].post.code == code && t.calls[id].post.tokenUrl == other
  {
  }

  /** The steps that may change the rows of a key: a write for that key, its own user's disconnect, or the news that the
      gateway's registration with that tenant's server is gone. */
  predicate Touches(s: State, e: Event, key: Key) {
    match e
    case Disconnects(k) => k == key
    case Commits(id) => id in s.calls && s.calls[id].Writing? && s.calls[id].grant.post.claims.key == key
    case Answers(id, Rejected(true)) =>
      && id in s.calls && s.calls[id].Posted? && s.calls[id].post.dcr
      && s.calls[id].post.claims.key.tenant == key.tenant && s.calls[id].post.claims.key.server == key.server
    case _ => false
  }

  /** No other step does. */
  lemma OtherRowsUnchanged(s: State, e: Event, key: Key, row: nat)
    requires Inv(s) && !Touches(s, e, key)
    ensures var t := Step(s, e);
            && (row in s.tokens && s.tokens[row].key == key ==> row in t.tokens && t.tokens[row] == s.tokens[row])
            && (row in t.tokens && t.tokens[row].key == key ==> row in s.tokens && t.tokens[row] == s.tokens[row])
  {
    hide History, Initiate, Callback, Justified;
    if e.Commits? && e.id in s.calls { assert CallOk(s, s.calls[e.id]); }
  }

  /** One Connect with nothing else going on: initiate, `wait` seconds at the identity provider, callback, answer,
      write. */
  ghost function Connect(s: State, key: Key, verifier: Verifier, authorize: Url, wait: real, id: nat, code: string,
                         iss: Option<Url>, endpoint: string, access: string): State
  {
    var c := Minted(s, key, verifier, authorize);
    var s1 := Step(Step(s, Initiates(key, verifier, Some(authorize))), Tick(wait));
    var s2 := Step(s1, CallsBack(id, Redirect("", code, Token(c), iss), Some(endpoint)));
    Step(Step(s2, Answers(id, Payload(Some(access)))), Commits(id))
  }

  /** It succeeds if and only if the round trip ends within 600 s of the whole second it began in and the issuer passes.
      Then the key's one row holds the new token: the row it had, or a new one. Otherwise no row changes. */
  lemma ConnectSucceedsExactly(s: State, key: Key, verifier: Verifier, authorize: Url, wait: real, id: nat,
                               code: string, iss: Option<Url>, endpoint: string, access: string)
    requires Inv(s) && Configured(s, key) && id !in s.calls && wait >= 0.0 && code != "" && access != ""
    requires Split(authorize) && (iss.Some? ==> Split(iss.value))
    ensures var t := Connect(s, key, verifier, authorize, wait, id, code, iss, endpoint, access);
            && id in t.calls
            && (t.calls[id] == Ended(200) <==>
                  && s.now + wait < (s.now.Floor + STATE_TTL) as real
                  && (iss.None? || !HasOrigin(authorize) || SameOrigin(iss.value, authorize)))
            && (t.calls[id] != Ended(200) ==> t.tokens == s.tokens)
            && (t.calls[id] == Ended(200) ==>
                  exists row :: row in t.tokens && t.tokens == s.tokens[row := TokenRow(key, access)]
                    && (row in s.tokens <==> RowOf(s.tokens, key).Some?))
  {
    hide Step, Calls, History, Justified, Origin, IssuerAccepted;
    var c := Minted(s, key, verifier, authorize);
    var s1 := Step(Step(s, Initiates(key, verifier, Some(authorize))), Tick(wait));
    var s2 := Step(s1, CallsBack(id, Redirect("", code, Token(c), iss), Some(endpoint)));
    ReturnsFromProvider(s, key, verifier, authorize, wait);
    IssuerAcceptedExactly(iss, authorize);
    CallbackOutcome(s1, id, c, code, iss, endpoint);
    if s2.calls[id].Posted? {
      WriteAnswer(s2, id, access);
    } else {
      EndedStays(s2, id, access);
    }
  }

  /** The state in which the browser comes back. */
  lemma ReturnsFromProvider(s: State, key: Key, verifier: Verifier, authorize: Url, wait: real)
    requires Configured(s, key) && wait >= 0.0
    ensures var c := Minted(s, key, verifier, authorize);
            var s1 := Step(Step(s, Initiates(key, verifier, Some(authorize))), Tick(wait));
            && s1 == s.(now := s.now + wait, nonce := s1.nonce, requests := s1.requests)
            && (Verifies(s1, c) <==> s.now + wait < (s.now.Floor + STATE_TTL) as real)
            && c.expectedIss == Origin(authorize) && c.key == key
  {
  }

  lemma CallbackOutcome(s: State, id: nat, c: Claims, code: string, iss: Option<Url>, endpoint: string)
    requires id !in s.calls && code != "" && Configured(s, c.key)
    ensures var t := Step(s, CallsBack(id, Redirect("", code, Token(c), iss), Some(endpoint)));
            && t == s.(calls := t.calls, posts := t.posts) && id in t.calls
            && (if Verifies(s, c) && IssuerAccepted(iss, c.expectedIss)
                then t.calls[id].Posted? && t.calls[id].post.claims == c
                else t.calls[id] == Ended(400))
  {
    hide IssuerAccepted;
  }

  /** An answer with a token, and the write that follows it at once. */
  lemma WriteAnswer(s: State, id: nat, access: string)
    requires id in s.calls && s.calls[id].Posted? && access != "" && s.nextRow !in s.tokens
    ensures var key := s.calls[id].post.claims.key;
            var t := Step(Step(s, Answers(id, Payload(Some(access)))), Commits(id));
            && id in t.calls && t.calls[id] == Ended(200)
            && exists row :: row in t.tokens && t.tokens == s.tokens[row := TokenRow(key, access)]
                 && (row in s.tokens <==> RowOf(s.tokens, key).Some?)
  {
    var key := s.calls[id].post.claims.key;
    var s2 := Step(s, Answers(id, Payload(Some(access))));
    assert s2.tokens == s.tokens && s2.calls[id] == Writing(Grant(s.calls[id].post, access), RowOf(s.tokens, key));
    var t := Step(s2, Commits(id));
    var row := if RowOf(s.tokens, key).Some? then RowOf(s.tokens, key).value else s.nextRow;
    assert row in t.tokens && t.tokens == s.tokens[row := TokenRow(key, access)];
  }

  lemma EndedStays(s: State, id: nat, access: string)
    requires id in s.calls && s.calls[id].Ended?
    ensures Step(Step(s, Answers(id, Payload(Some(access)))), Commits(id)) == s
  {
  }
}
