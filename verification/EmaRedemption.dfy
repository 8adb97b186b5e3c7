/** Redeeming an ID-JAG at the EMA token endpoint (api/ema_oauth.py) as steps of concurrent redemptions, the sweeper's
    prune and administrators' edits of users. Signature, audience, issuer, resource and allowlist checks are taken to
    have succeeded for an attempt that is validated; a failed check ends the attempt by `Cancel`.

    The tables hold committed rows only. What an attempt has flushed and not yet committed is visible to no other
    attempt, but its keys are locked: a conflicting insert waits. */
module EmaRedemption {
  import opened Text

  /** The claims that matter here; `exp` is in whole seconds. */
  datatype Grant = Grant(tenant: nat, jti: string, exp: int, directory: nat, subject: string, email: string)
  {
    function Key(): (nat, string) { (tenant, jti) }
    function Subject(): UserKey { Linked(directory, subject) }
    /** The row that is created for a subject without one. */
    function NewUser(): User { User(tenant, Lower(Strip(email)), false) }
    /** Two grants are the same ID-JAG when they agree on these. */
    function Id(): (nat, string, int) { (tenant, jti, exp) }
  }

  /** Users that a directory has provisioned are unique by directory and subject; the others have a number. */
  datatype UserKey = Linked(directory: nat, subject: string) | Unlinked(number: nat)

  /** All users of a tenant, provisioned or not, are unique by e-mail address. */
  datatype User = User(tenant: nat, email: string, disabled: bool)
  {
    predicate SameMail(other: User) { tenant == other.tenant && email == other.email }
  }

  const LEEWAY := 60.0
  const JTI_RETENTION_SKEW := 300.0

  /** The assertion decoder refuses a token whose `exp` plus the leeway has been reached. */
  predicate Accepts(g: Grant, now: real) {
    now < g.exp as real + LEEWAY
  }

  function RetainedUntil(g: Grant): real {
    g.exp as real + JTI_RETENTION_SKEW
  }

  // --- States and steps ------------------------------------------------------------

  datatype Outcome = Minted | InvalidGrant | ServerError | Aborted

  datatype Phase =
    | Validated                    // decoded; jti row added to the session, nothing sent
    | Found(disabled: bool)        // the user row exists and was read
    | Missing                      // no user row was read: one will be created and flushed
    | Flushed                      // jti row and new user row inserted, not committed
    | Ended(outcome: Outcome)

  datatype Attempt = Attempt(grant: Grant, decodedAt: real, phase: Phase)

  datatype Mint = Mint(grant: Grant, decodedAt: real)

  datatype State = State(
    now: real,
    jtis: map<(nat, string), real>,     // (tenant, jti) -> expires_at
    users: map<UserKey, User>,
    attempts: map<nat, Attempt>,
    minted: seq<Mint>)

  datatype Event =
    | Tick(seconds: real)
    | Present(id: nat, grant: Grant)
    | Lookup(id: nat)
    | Flush(id: nat)
    | Finish(id: nat)
    | Cancel(id: nat)
    | Prune
    | SetUser(key: UserKey, user: User)
    | RemoveUser(key: UserKey)

  predicate Live(s: State, id: nat) {
    id in s.attempts && !s.attempts[id].phase.Ended?
  }

  predicate Flushing(s: State, id: nat) {
    id in s.attempts && s.attempts[id].phase.Flushed?
  }

  /** The rows that two grants would insert collide. */
  predicate Collide(g: Grant, h: Grant) {
    g.Key() == h.Key() || g.Subject() == h.Subject() || g.NewUser().SameMail(h.NewUser())
  }

  /** Some other attempt holds an uncommitted row under the same jti, subject or e-mail address. */
  predicate Blocked(s: State, id: nat)
    requires id in s.attempts
  {
    exists other :: other in s.attempts && other != id && Flushing(s, other)
      && Collide(s.attempts[other].grant, s.attempts[id].grant)
  }

  predicate JtiBlocked(s: State, id: nat)
    requires id in s.attempts
  {
    exists other :: other in s.attempts && other != id && Flushing(s, other)
      && s.attempts[other].grant.Key() == s.attempts[id].grant.Key()
  }

  predicate UserLocked(s: State, key: UserKey, user: User) {
    exists other :: other in s.attempts && Flushing(s, other)
      && (s.attempts[other].grant.Subject() == key || s.attempts[other].grant.NewUser().SameMail(user))
  }

  predicate MailTaken(s: State, user: User) {
    exists key :: key in s.users && s.users[key].SameMail(user)
  }

  /** The insert of the jti row and of the new user row would violate a unique key. */
  predicate Taken(s: State, g: Grant) {
    g.Key() in s.jtis || g.Subject() in s.users || MailTaken(s, g.NewUser())
  }

  /** The time from decoding to the insert of the jti row is at most `maxDelay`. */
  predicate InTime(s: State, id: nat, maxDelay: real)
    requires id in s.attempts
  {
    s.now - s.attempts[id].decodedAt <= maxDelay
  }

  function To(s: State, id: nat, phase: Phase): State
    requires id in s.attempts
  {
    s.(attempts := s.attempts[id := s.attempts[id].(phase := phase)])
  }

  function Mints(s: State, id: nat): State
    requires id in s.attempts
  {
    var a := s.attempts[id];
    To(s, id, Ended(Minted)).(
      jtis := s.jtis[a.grant.Key() := RetainedUntil(a.grant)],
      users := if a.phase.Flushed? then s.users[a.grant.Subject() := a.grant.NewUser()] else s.users,
      minted := s.minted + [Mint(a.grant, a.decodedAt)])
  }

  /** One atomic step; an event that is not enabled leaves the state as it is. */
  function Step(s: State, e: Event, maxDelay: real): State {
    match e
    case Tick(seconds) => if seconds >= 0.0 then s.(now := s.now + seconds) else s
    case Present(id, g) =>
      if id in s.attempts then s
      else
        var phase := if Accepts(g, s.now) then Validated else Ended(InvalidGrant);
        s.(attempts := s.attempts[id := Attempt(g, s.now, phase)])
    case Lookup(id) =>
      if !(Live(s, id) && s.attempts[id].phase.Validated?) then s
      else
        var user := s.attempts[id].grant.Subject();
        To(s, id, if user in s.users then Found(s.users[user].disabled) else Missing)
    case Flush(id) =>
      if !(Live(s, id) && s.attempts[id].phase.Missing?) || Blocked(s, id) || !InTime(s, id, maxDelay) then s
      else
        // The flush is outside the handler's `try`, so a conflict here is not turned into a clean rejection.
        To(s, id, if Taken(s, s.attempts[id].grant) then Ended(ServerError) else Flushed)
    case Finish(id) =>
      if !Live(s, id) then s
      else
        (match s.attempts[id].phase
        case Found(disabled) =>
          if disabled then To(s, id, Ended(InvalidGrant))
          else if JtiBlocked(s, id) || !InTime(s, id, maxDelay) then s
          else if s.attempts[id].grant.Key() in s.jtis then To(s, id, Ended(InvalidGrant))
          else Mints(s, id)
        case Flushed => Mints(s, id)
        case _ => s)
    case Cancel(id) => if Live(s, id) then To(s, id, Ended(Aborted)) else s
    case Prune => s.(jtis := map k | k in s.jtis && !(s.jtis[k] < s.now) :: s.jtis[k])
    case SetUser(key, user) =>
      if UserLocked(s, key, user) || MailTaken(s.(users := s.users - {key}), user) then s
      else s.(users := s.users[key := user])
    case RemoveUser(key) => s.(users := s.users - {key})
  }

  function Run(s: State, es: seq<Event>, maxDelay: real): State {
    if es == [] then s else Step(Run(s, es[..|es| - 1], maxDelay), es[|es| - 1], maxDelay)
  }

  predicate Initial(s: State) {
    s.jtis == map[] && s.attempts == map[] && s.minted == []
  }

  // --- Invariant ------------------------------------------------------------------------

  /** No ID-JAG was redeemed twice. */
  predicate OnceEach(s: State) {
    forall i, j :: 0 <= i < j < |s.minted| ==> s.minted[i].grant.Id() != s.minted[j].grant.Id()
  }

  /** A redeemed jti stays reserved until its retention has run out. */
  predicate Reserved(s: State, g: Grant) {
    (g.Key() in s.jtis && s.jtis[g.Key()] == RetainedUntil(g)) || RetainedUntil(g) < s.now
  }

  predicate NotMinted(s: State, g: Grant) {
    forall m :: m in s.minted ==> m.grant.Id() != g.Id()
  }

  predicate AttemptOk(s: State, a: Attempt) {
    && (!a.phase.Ended? ==> a.decodedAt <= s.now && Accepts(a.grant, a.decodedAt))
    && (a.phase.Flushed? ==> !Taken(s, a.grant) && NotMinted(s, a.grant))
  }

  predicate LocksDisjoint(s: State) {
    forall i, j :: i in s.attempts && j in s.attempts && i != j && Flushing(s, i) && Flushing(s, j)
      ==> !Collide(s.attempts[i].grant, s.attempts[j].grant)
  }

  predicate Inv(s: State) {
    && OnceEach(s)
    && (forall m :: m in s.minted ==> Reserved(s, m.grant) && Accepts(m.grant, m.decodedAt))
    && (forall id :: id in s.attempts ==> AttemptOk(s, s.attempts[id]))
    && LocksDisjoint(s)
  }

  /** The heart of it: within 240 seconds of decoding, a free key means that the grant was never redeemed. */
  lemma FreeKeyMeansUnredeemed(s: State, id: nat, maxDelay: real)
    requires Inv(s) && Live(s, id) && InTime(s, id, maxDelay) && maxDelay <= 240.0
    requires s.attempts[id].grant.Key() !in s.jtis
    ensures NotMinted(s, s.attempts[id].grant)
  {
    var a := s.attempts[id];
    assert AttemptOk(s, a);
    forall m | m in s.minted ensures m.grant.Id() != a.grant.Id() {
      assert Reserved(s, m.grant);
      assert m.grant.Id() == a.grant.Id() ==> RetainedUntil(m.grant) == RetainedUntil(a.grant);
    }
  }

  lemma MintKeepsInv(s: State, id: nat)
    requires Inv(s) && Live(s, id)
    requires s.attempts[id].grant.Key() !in s.jtis && NotMinted(s, s.attempts[id].grant)
    requires s.attempts[id].phase.Flushed? || !JtiBlocked(s, id)
    ensures Inv(Mints(s, id))
  {
    var a, t := s.attempts[id], Mints(s, id);
    forall m | m in t.minted ensures Reserved(t, m.grant) && Accepts(m.grant, m.decodedAt) {
      if m in s.minted {
        assert Reserved(s, m.grant);
      }
    }
    forall other | other in t.attempts ensures AttemptOk(t, t.attempts[other]) {
      assert AttemptOk(s, s.attempts[other]);
    }
  }

  lemma StepKeepsInv(s: State, e: Event, maxDelay: real)
    requires Inv(s) && maxDelay <= 240.0
    ensures Inv(Step(s, e, maxDelay))
  {
    match e
    case Present(_, _) => OpenKeepsInv(s, e, maxDelay);
    case Lookup(_) => OpenKeepsInv(s, e, maxDelay);
    case Cancel(_) => OpenKeepsInv(s, e, maxDelay);
    case Flush(id) => FlushKeepsInv(s, id, maxDelay);
    case Finish(id) => FinishKeepsInv(s, id, maxDelay);
    case _ => OutsideKeepsInv(s, e, maxDelay);
  }

  /** An attempt that moves on without having flushed. */
  lemma MoveKeepsInv(s: State, id: nat, a: Attempt)
    requires Inv(s) && AttemptOk(s, a) && !a.phase.Flushed?
    ensures Inv(s.(attempts := s.attempts[id := a]))
  {
    hide Taken, NotMinted, OnceEach, Reserved, Collide;
    var t := s.(attempts := s.attempts[id := a]);
    assert forall other :: Flushing(t, other) ==> Flushing(s, other) && t.attempts[other] == s.attempts[other];
    AttemptsStepKeepsInv(s, t);
  }

  /** Arrivals, user lookups and aborted attempts touch no table. */
  lemma OpenKeepsInv(s: State, e: Event, maxDelay: real)
    requires Inv(s) && (e.Present? || e.Lookup? || e.Cancel?)
    ensures Inv(Step(s, e, maxDelay))
  {
    hide Inv, Taken, NotMinted;
    var (t, id) := (Step(s, e, maxDelay), e.id);
    if t != s {
      if id in s.attempts { StandsOk(s, id); }
      MoveKeepsInv(s, id, t.attempts[id]);
    }
  }

  lemma StandsOk(s: State, id: nat)
    requires Inv(s) && id in s.attempts
    ensures AttemptOk(s, s.attempts[id])
  {
  }

  lemma FlushKeepsInv(s: State, id: nat, maxDelay: real)
    requires Inv(s) && maxDelay <= 240.0
    ensures Inv(Step(s, Flush(id), maxDelay))
  {
    var t := Step(s, Flush(id), maxDelay);
    if t != s {
      if t.attempts[id].phase.Flushed? {
        FreeKeyMeansUnredeemed(s, id, maxDelay);
      }
      AttemptsStepKeepsInv(s, t);
    }
  }

  lemma FinishKeepsInv(s: State, id: nat, maxDelay: real)
    requires Inv(s) && maxDelay <= 240.0
    ensures Inv(Step(s, Finish(id), maxDelay))
  {
    var t := Step(s, Finish(id), maxDelay);
    if t != s && t.attempts[id].phase == Ended(Minted) {
      if s.attempts[id].phase.Found? {
        FreeKeyMeansUnredeemed(s, id, maxDelay);
      }
      MintKeepsInv(s, id);
    } else if t != s {
      AttemptsStepKeepsInv(s, t);
    }
  }

  /** Time, prunes and administrators. */
  lemma OutsideKeepsInv(s: State, e: Event, maxDelay: real)
    requires Inv(s) && (e.Tick? || e.Prune? || e.SetUser? || e.RemoveUser?)
    ensures Inv(Step(s, e, maxDelay))
  {
    var t := Step(s, e, maxDelay);
    assert t.minted == s.minted && t.attempts == s.attempts;
    forall m | m in t.minted ensures Reserved(t, m.grant) && Accepts(m.grant, m.decodedAt) {
      assert Reserved(s, m.grant);
    }
    forall id | id in t.attempts ensures AttemptOk(t, t.attempts[id]) {
      assert AttemptOk(s, s.attempts[id]);
    }
  }

  /** Steps that only move one attempt to a phase that is sound for it keep the invariant. */
  lemma AttemptsStepKeepsInv(s: State, t: State)
    requires Inv(s) && t.(attempts := s.attempts) == s
    requires forall id :: id in t.attempts ==> AttemptOk(s, t.attempts[id])
    requires LocksDisjoint(t)
    ensures Inv(t)
  {
    forall m | m in t.minted ensures Reserved(t, m.grant) { assert Reserved(s, m.grant); }
    forall id | id in t.attempts ensures AttemptOk(t, t.attempts[id]) { assert AttemptOk(s, t.attempts[id]); }
  }

  lemma {:induction false} RunKeepsInv(s: State, es: seq<Event>, maxDelay: real)
    requires Inv(s) && maxDelay <= 240.0
    ensures Inv(Run(s, es, maxDelay))
  {
    hide Inv, Step;
    if es != [] {
      var n := |es| - 1;
      RunKeepsInv(s, es[..n], maxDelay);
      StepKeepsInv(Run(s, es[..n], maxDelay), es[n], maxDelay);
    }
  }

  // --- Main results ------------------------------------------------------------------------

  /** In every interleaving an ID-JAG is redeemed at most once, and only when it was decoded before exp + 60 s. */
  lemma RedeemedAtMostOnce(s: State, es: seq<Event>, maxDelay: real)
    requires Initial(s) && maxDelay <= 240.0
    ensures OnceEach(Run(s, es, maxDelay))
    ensures forall m :: m in Run(s, es, maxDelay).minted ==> m.decodedAt < m.grant.exp as real + 60.0
  {
    RunKeepsInv(s, es, maxDelay);
  }

  /** The unique keys of the users table hold throughout. */
  predicate MailsUnique(s: State) {
    forall k, l :: k in s.users && l in s.users && s.users[k].SameMail(s.users[l]) ==> k == l
  }

  lemma {:induction false} MailsStayUnique(s: State, es: seq<Event>, maxDelay: real)
    requires Inv(s) && MailsUnique(s) && maxDelay <= 240.0
    ensures MailsUnique(Run(s, es, maxDelay))
  {
    hide Inv, Step, MailsUnique;
    if es != [] {
      var n := |es| - 1;
      MailsStayUnique(s, es[..n], maxDelay);
      RunKeepsInv(s, es[..n], maxDelay);
      StepKeepsMails(Run(s, es[..n], maxDelay), es[n], maxDelay);
    }
  }

  lemma StepKeepsMails(s: State, e: Event, maxDelay: real)
    requires Inv(s) && MailsUnique(s)
    ensures MailsUnique(Step(s, e, maxDelay))
  {
    hide OnceEach, Reserved, LocksDisjoint, NotMinted, Blocked, JtiBlocked, InTime;
    match e
    case SetUser(key, user) =>
      if !MailTaken(s.(users := s.users - {key}), user) {
        assert forall k :: k in s.users && k != key ==> k in s.users - {key};
        NewMailKeepsUnique(s, key, user);
      }
    case Finish(id) =>
      if Flushing(s, id) {
        assert AttemptOk(s, s.attempts[id]);
        NewMailKeepsUnique(s, s.attempts[id].grant.Subject(), s.attempts[id].grant.NewUser());
      }
    case _ =>
  }

  lemma NewMailKeepsUnique(s: State, key: UserKey, user: User)
    requires MailsUnique(s) && forall k :: k in s.users && k != key ==> !s.users[k].SameMail(user)
    ensures MailsUnique(s.(users := s.users[key := user]))
  {
  }

  function DoubleRedemption(g: Grant, wait: real): seq<Event> {
    [Present(0, g), Present(1, g), Lookup(0), Finish(0), Tick(wait), Prune, Lookup(1), Finish(1)]
  }

  /** Beyond 240 seconds the prune can overtake a slow redemption, and the same grant is redeemed twice. */
  lemma SlowRedemptionBreaksIt(g: Grant, maxDelay: real) returns (s: State, es: seq<Event>)
    requires maxDelay > 240.0
    ensures Initial(s) && !OnceEach(Run(s, es, maxDelay))
  {
    var slack := (maxDelay - 240.0) / 4.0;
    var start := g.exp as real + LEEWAY - slack;
    var wait := 240.0 + 2.0 * slack;
    s := State(start, map[], map[g.Subject() := g.NewUser()], map[], []);
    es := DoubleRedemption(g, wait);
    var states := [s] + FirstRedemption(s, g, maxDelay) + SecondRedemption(g, start, wait, maxDelay);
    RunAlong(states, es, maxDelay);
    assert states[8].minted[0].grant.Id() == states[8].minted[1].grant.Id();
  }

  /** Both attempts are decoded; the first one completes. */
  ghost function FirstRedemption(s: State, g: Grant, maxDelay: real): (states: seq<State>)
    requires Initial(s) && s.users == map[g.Subject() := g.NewUser()] && Accepts(g, s.now) && maxDelay >= 0.0
    ensures |states| == 4
    ensures states[0] == Step(s, Present(0, g), maxDelay)
    ensures states[1] == Step(states[0], Present(1, g), maxDelay)
    ensures states[2] == Step(states[1], Lookup(0), maxDelay)
    ensures states[3] == Step(states[2], Finish(0), maxDelay) == AfterFirst(g, s.now)
  {
    var a := Attempt(g, s.now, Validated);
    var s2 := s.(attempts := map[0 := a, 1 := a]);
    var s3 := s.(attempts := map[0 := a.(phase := Found(false)), 1 := a]);
    [s.(attempts := map[0 := a]), s2, s3, AfterFirst(g, s.now)]
  }

  ghost function AfterFirst(g: Grant, start: real): State {
    var a := Attempt(g, start, Validated);
    State(start, map[g.Key() := RetainedUntil(g)], map[g.Subject() := g.NewUser()],
          map[0 := a.(phase := Ended(Minted)), 1 := a], [Mint(g, start)])
  }

  /** The reservation is pruned while the second attempt is still on its way, and then that one completes too. */
  ghost function SecondRedemption(g: Grant, start: real, wait: real, maxDelay: real): (states: seq<State>)
    requires 0.0 <= wait <= maxDelay && RetainedUntil(g) < start + wait
    ensures |states| == 4
    ensures states[0] == Step(AfterFirst(g, start), Tick(wait), maxDelay)
    ensures states[1] == Step(states[0], Prune, maxDelay)
    ensures states[2] == Step(states[1], Lookup(1), maxDelay)
    ensures states[3] == Step(states[2], Finish(1), maxDelay)
    ensures states[3].minted == [Mint(g, start), Mint(g, start)]
  {
    var s5 := AfterFirst(g, start).(now := start + wait);
    var s6 := s5.(jtis := map[]);
    var a := Attempt(g, start, Found(false));
    var s7 := s6.(attempts := map[0 := a.(phase := Ended(Minted)), 1 := a]);
    [s5, s6, s7, Mints(s7, 1)]
  }

  /** A run passes through the states that single steps give. */
  lemma {:induction false} RunAlong(states: seq<State>, es: seq<Event>, maxDelay: real)
    requires |states| == |es| + 1
    requires forall i :: 0 <= i < |es| ==> Step(states[i], es[i], maxDelay) == states[i + 1]
    ensures Run(states[0], es, maxDelay) == states[|es|]
    decreases |es|
  {
    if es != [] {
      RunAlong(states[..|es|], es[..|es| - 1], maxDelay);
    }
  }

  /** 240 seconds, the retention less the leeway, is exactly the delay the design tolerates. */
  lemma SafeDelayExactly(maxDelay: real)
    ensures (forall s: State, es: seq<Event> :: Initial(s) ==> OnceEach(Run(s, es, maxDelay))) <==> maxDelay <= 240.0
  {
    if maxDelay <= 240.0 {
      forall s: State, es: seq<Event> | Initial(s) ensures OnceEach(Run(s, es, maxDelay)) {
        RedeemedAtMostOnce(s, es, maxDelay);
      }
    } else {
      var s, es := SlowRedemptionBreaksIt(Grant(0, "jti", 0, 0, "sub", "mail"), maxDelay);
    }
  }

  /** A redemption is all or nothing. A step of an attempt either mints, and then reserves the key that was free, for
      the grant's own retention, and creates at most the grant's own user; or it leaves both tables as they were. */
  lemma RedemptionIsAtomic(s: State, id: nat, e: Event, maxDelay: real)
    requires Inv(s)
    requires e == Lookup(id) || e == Flush(id) || e == Finish(id) || e == Cancel(id)
    ensures var t := Step(s, e, maxDelay);
            if t.minted == s.minted then t.jtis == s.jtis && t.users == s.users
            else
              && id in s.attempts && t.attempts[id].phase == Ended(Minted)
              && (var g := s.attempts[id].grant;
                  && t.minted == s.minted + [Mint(g, s.attempts[id].decodedAt)]
                  && g.Key() !in s.jtis && t.jtis == s.jtis[g.Key() := RetainedUntil(g)]
                  && (t.users == s.users
                      || (g.Subject() !in s.users && !MailTaken(s, g.NewUser())
                          && t.users == s.users[g.Subject() := g.NewUser()])))
  {
    if id in s.attempts {
      assert AttemptOk(s, s.attempts[id]);
      assert |s.minted + [Mint(s.attempts[id].grant, s.attempts[id].decodedAt)]| == |s.minted| + 1;
    }
  }

  /** The answer to a validated attempt when no other one holds uncommitted rows and nothing happens in between. */
  function Answer(s: State, g: Grant): Outcome {
    if g.Subject() !in s.users then if Taken(s, g) then ServerError else Minted
    else if s.users[g.Subject()].disabled || g.Key() in s.jtis then InvalidGrant
    else Minted
  }

  lemma UncontendedAnswer(s: State, id: nat, maxDelay: real)
    requires Live(s, id) && s.attempts[id].phase == Validated && InTime(s, id, maxDelay)
    requires forall other :: other in s.attempts ==> !s.attempts[other].phase.Flushed?
    ensures var g := s.attempts[id].grant;
            var t := Step(Step(Step(s, Lookup(id), maxDelay), Flush(id), maxDelay), Finish(id), maxDelay);
            && t.attempts[id].phase == Ended(Answer(s, g))
            && t.minted == s.minted + (if Answer(s, g) == Minted then [Mint(g, s.attempts[id].decodedAt)] else [])
            && (Answer(s, g) == Minted <==> t.minted != s.minted)
  {
    var g := s.attempts[id].grant;
    var found := Step(s, Lookup(id), maxDelay);
    var flushed := Step(found, Flush(id), maxDelay);
    assert Taken(found, g) == Taken(s, g);
    assert !JtiBlocked(flushed, id);
    assert |s.minted + [Mint(g, s.attempts[id].decodedAt)]| == |s.minted| + 1;
  }
}
