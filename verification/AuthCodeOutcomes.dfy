/** How the calls of the authorization-code flow end, and which steps write and remove token rows. */
module AuthCodeOutcomes {
  import opened Options
  import opened AuthCodeFlow

  // --- The callback ------------------------------------------------------------------------

  /** The response names no error and carries a code and a fresh state of the gateway, from an acceptable issuer. */
  predicate ResponsePasses(s: State, r: Redirect) {
    && r.error == "" && r.code != "" && r.state.Token? && Verifies(s, r.state.claims)
    && IssuerAccepted(r.iss, r.state.claims.expectedIss)
  }

  /** How a callback ends: 400 for a bad response, 404 when the server is no longer configured, 409 or 500 when the
      client's credentials are missing, depending on who registered it. Otherwise the code is posted with what the
      server's configuration says now. */
  lemma CallbackEndsExactly(s: State, id: nat, r: Redirect, credentials: Option<string>)
    requires id !in s.calls
    ensures var t := Step(s, CallsBack(id, r, credentials));
            && id in t.calls
            && (t.calls[id] == Ended(400) <==> !ResponsePasses(s, r))
            && (t.calls[id] == Ended(404) <==> ResponsePasses(s, r) && !Configured(s, r.state.claims.key))
            && (ResponsePasses(s, r) && Configured(s, r.state.claims.key) ==>
                  var (c, spec) := (r.state.claims, s.servers[r.state.claims.key.server].spec.value);
                  && (t.calls[id] == Ended(409) <==> credentials.None? && spec.dcr)
                  && (t.calls[id] == Ended(500) <==> credentials.None? && !spec.dcr)
                  && (credentials.Some? ==>
                        var endpoint := if spec.dcr then credentials.value else spec.tokenUrl;
                        && t.calls[id].Posted?
                        && t.calls[id].post
                             == Exchange(c, r.code, t.calls[id].post.verifier, r.iss, s.now, endpoint, spec.dcr)
                        && t.calls[id].post.verifier in {c.verifier, None}
                        && (t.calls[id].post.verifier.None? <==> c.verifier in {Some(""), None})))
            && (forall other :: other in s.calls ==> other in t.calls && t.calls[other] == s.calls[other])
  {
  }

  /** A call goes through callback, answer and write once each; when it has ended nothing moves it again. */
  lemma CallMovesOn(s: State, e: Event, id: nat)
    requires id in s.calls
    ensures var t := Step(s, e);
            && id in t.calls
            && (t.calls[id] != s.calls[id] ==>
                  || (s.calls[id].Posted? && e.Answers? && e.id == id && (t.calls[id].Writing? || t.calls[id].Ended?))
                  || (s.calls[id].Writing? && e == Commits(id) && t.calls[id].Ended?))
            && (s.calls[id].Posted? && e.Answers? && e.id == id ==> !t.calls[id].Posted?)
            && (s.calls[id].Writing? && e == Commits(id) ==> t.calls[id].Ended?)
  {
    hide Initiate, RowOf, Verifies, IssuerAccepted, Configured;
  }

  // --- The answer --------------------------------------------------------------------------

  ghost predicate HasRow(s: State, key: Key) {
    exists row :: row in s.tokens && s.tokens[row].key == key
  }

  /** The answer of the token endpoint says that the gateway's own registration with it is gone. */
  predicate LosesRegistration(s: State, e: Event) {
    e.Answers? && e.answer == Rejected(true) && e.id in s.calls && s.calls[e.id].Posted? && s.calls[e.id].post.dcr
  }

  /** How an answer ends a call: 409 exactly for a lost registration, a token that is kept for writing exactly when it
      has one, and 502 otherwise. */
  lemma AnswerEndsExactly(s: State, id: nat, a: Answer)
    requires id in s.calls && s.calls[id].Posted?
    ensures var (post, t) := (s.calls[id].post, Step(s, Answers(id, a)));
            && id in t.calls
            && (t.calls[id] == Ended(409) <==> LosesRegistration(s, Answers(id, a)))
            && (t.calls[id].Writing? <==> exists access :: access != "" && a == Payload(Some(access)))
            && (t.calls[id].Writing? ==>
                  && a == Payload(Some(t.calls[id].grant.access)) && t.calls[id].grant.post == post
                  && t.grants == s.grants + {t.calls[id].grant}
                  && (t.calls[id].found.Some? <==> HasRow(s, post.claims.key)))
            && (t.calls[id] == Ended(502) <==> t.calls[id] != Ended(409) && !t.calls[id].Writing?)
            && (forall other :: other in s.calls && other != id ==>
                  other in t.calls && t.calls[other] == s.calls[other])
  {
  }

  // --- The write ---------------------------------------------------------------------------

  /** The row that was read is still there; or none was read, and the key still has none. */
  ghost predicate CanWrite(s: State, id: nat)
    requires id in s.calls && s.calls[id].Writing?
  {
    match s.calls[id].found
    case Some(row) => row in s.tokens
    case None => !HasRow(s, s.calls[id].grant.post.claims.key)
  }

  /** A write succeeds exactly then, and makes the granted token that of the key's one row; otherwise it fails with 500
      and changes no row. */
  lemma WriteEndsExactly(s: State, id: nat)
    requires Inv(s) && id in s.calls && s.calls[id].Writing?
    ensures var (g, t) := (s.calls[id].grant, Step(s, Commits(id)));
            && id in t.calls
            && (t.calls[id] == if CanWrite(s, id) then Ended(200) else Ended(500))
            && (CanWrite(s, id) ==> exists row ::
                  && row in t.tokens && t.tokens == s.tokens[row := TokenRow(g.post.claims.key, g.access)]
                  && (s.calls[id].found.Some? ==> row == s.calls[id].found.value)
                  && (s.calls[id].found.None? ==> row !in s.tokens))
            && (!CanWrite(s, id) ==> t.tokens == s.tokens)
  {
    hide History, Justified;
    assert CallOk(s, s.calls[id]);
    var (g, t) := (s.calls[id].grant, Step(s, Commits(id)));
    var row := if s.calls[id].found.Some? then s.calls[id].found.value else s.nextRow;
    assert CanWrite(s, id) ==> row in t.tokens && t.tokens == s.tokens[row := TokenRow(g.post.claims.key, g.access)];
  }

  // --- What removes a row --------------------------------------------------------------------

  /** A row goes exactly by its own user's disconnect, or when the registration with that tenant's server is lost. */
  lemma RemovedExactly(s: State, e: Event, row: nat)
    requires Inv(s) && row in s.tokens
    ensures var key := s.tokens[row].key;
            row !in Step(s, e).tokens <==>
              || e == Disconnects(key)
              || (LosesRegistration(s, e) && s.calls[e.id].post.claims.key.tenant == key.tenant
                  && s.calls[e.id].post.claims.key.server == key.server)
  {
    hide History, Initiate, Callback, Justified;
  }

  /** So a disconnect leaves its key without a row, and a lost registration leaves that tenant's server without any. */
  lemma NothingLeft(s: State, e: Event, row: nat)
    requires Inv(s) && row in Step(s, e).tokens
    ensures e.Disconnects? ==> Step(s, e).tokens[row].key != e.key
    ensures LosesRegistration(s, e) ==>
      var (key, lost) := (Step(s, e).tokens[row].key, s.calls[e.id].post.claims.key);
      key.tenant != lost.tenant || key.server != lost.server
  {
    hide Inv;
  }

  // --- What stands in a row ------------------------------------------------------------------

  /** This step writes the token into the key's row. */
  ghost predicate Writes(s: State, e: Event, written: TokenRow) {
    && e.Commits? && e.id in s.calls && s.calls[e.id].Writing? && CanWrite(s, e.id)
    && written == TokenRow(s.calls[e.id].grant.post.claims.key, s.calls[e.id].grant.access)
  }

  lemma StepWrites(s: State, e: Event, row: nat)
    requires Inv(s) && row in Step(s, e).tokens
    ensures var t := Step(s, e);
            (row in s.tokens && s.tokens[row] == t.tokens[row]) || Writes(s, e, t.tokens[row])
  {
    if e.Commits? {
      if e.id in s.calls && s.calls[e.id].Writing? { WriteEndsExactly(s, e.id); }
      hide Inv;
    } else {
      hide Inv, Initiate, Callback;
    }
  }

  /** Every row of a run stood there from the start, or was written at some step of the run. */
  lemma {:induction false} RowsAreWritten(s: State, es: seq<Event>, row: nat)
    requires Inv(s) && row in Run(s, es).tokens
    ensures var found := Run(s, es).tokens[row];
            || (row in s.tokens && s.tokens[row] == found)
            || exists j :: 0 <= j < |es| && Writes(Run(s, es[..j]), es[j], found)
    decreases |es|
  {
    hide Inv, Step, Writes;
    if es != [] {
      var (next, found) := (Step(s, es[0]), Run(s, es).tokens[row]);
      StepKeepsInv(s, es[0]);
      RowsAreWritten(next, es[1..], row);
      if row in next.tokens && next.tokens[row] == found {
        StepWrites(s, es[0], row);
        assert Writes(s, es[0], found) ==> Writes(Run(s, es[..0]), es[0], found);
      } else {
        var j :| 0 <= j < |es| - 1 && Writes(Run(next, es[1..][..j]), es[1..][j], found);
        assert es[..j + 1][1..] == es[1..][..j] && es[..j + 1][0] == es[0];
        assert Writes(Run(s, es[..j + 1]), es[j + 1], found);
      }
    }
  }

  /** After a disconnect the key has a row again only when a Connect has written one since. */
  lemma DisconnectHolds(s: State, key: Key, es: seq<Event>, row: nat)
    requires Inv(s)
    requires var t := Run(Step(s, Disconnects(key)), es); row in t.tokens && t.tokens[row].key == key
    ensures var start := Step(s, Disconnects(key));
            exists j :: 0 <= j < |es| && Writes(Run(start, es[..j]), es[j], Run(start, es).tokens[row])
  {
    hide Inv, Run, Writes;
    var start := Step(s, Disconnects(key));
    StepKeepsInv(s, Disconnects(key));
    RowsAreWritten(start, es, row);
    if row in start.tokens { NothingLeft(s, Disconnects(key), row); }
  }
}
