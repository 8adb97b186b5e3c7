/** When the steps of a redemption wait for another one, and what administrators and the sweeper can change. */
module EmaSteps {
  import opened EmaRedemption

  /** Another attempt has inserted rows for this grant and not committed. */
  predicate Uncommitted(s: State, other: nat, id: nat, h: Grant) {
    other in s.attempts && other != id && s.attempts[other].phase.Flushed? && s.attempts[other].grant == h
  }

  predicate SameJti(g: Grant, h: Grant) {
    g.tenant == h.tenant && g.jti == h.jti
  }

  predicate SameSubject(g: Grant, h: Grant) {
    g.directory == h.directory && g.subject == h.subject
  }

  predicate SameAddress(g: Grant, h: Grant) {
    g.tenant == h.tenant && g.NewUser().email == h.NewUser().email
  }

  /** A flush waits if and only if another attempt has inserted, and not committed, a row with the same jti, the same
      subject or the same address. Otherwise it ends the attempt or inserts both rows, which nobody sees yet. */
  lemma FlushWaitsExactly(s: State, id: nat, maxDelay: real)
    requires id in s.attempts && s.attempts[id].phase.Missing? && InTime(s, id, maxDelay)
    ensures var (g, t) := (s.attempts[id].grant, Step(s, Flush(id), maxDelay));
            && (t.attempts[id].phase.Missing? <==>
                  exists other, h ::
                    Uncommitted(s, other, id, h) && (SameJti(g, h) || SameSubject(g, h) || SameAddress(g, h)))
            && (t.attempts[id].phase.Missing? ==> t == s)
            && t.jtis == s.jtis && t.users == s.users && t.minted == s.minted
  {
    var g := s.attempts[id].grant;
    if Blocked(s, id) {
      var other :| other in s.attempts && other != id && Flushing(s, other) && Collide(s.attempts[other].grant, g);
      assert Uncommitted(s, other, id, s.attempts[other].grant);
    }
    forall other, h |
      Uncommitted(s, other, id, h) && (SameJti(g, h) || SameSubject(g, h) || SameAddress(g, h))
      ensures Blocked(s, id)
    {
      assert Collide(h, g);
    }
  }

  /** The commit of an attempt that found its user waits if and only if another one has inserted the same jti. */
  lemma CommitWaitsExactly(s: State, id: nat, maxDelay: real)
    requires id in s.attempts && s.attempts[id].phase == Found(false) && InTime(s, id, maxDelay)
    ensures var (g, t) := (s.attempts[id].grant, Step(s, Finish(id), maxDelay));
            && (t.attempts[id].phase == Found(false) <==>
                  exists other, h :: Uncommitted(s, other, id, h) && SameJti(g, h))
            && (t.attempts[id].phase == Found(false) ==> t == s)
  {
    var g := s.attempts[id].grant;
    if JtiBlocked(s, id) {
      var other :| other in s.attempts && other != id && Flushing(s, other)
                   && s.attempts[other].grant.Key() == g.Key();
      assert Uncommitted(s, other, id, s.attempts[other].grant);
    }
  }

  predicate Clashes(user: User, other: User) {
    user.tenant == other.tenant && user.email == other.email
  }

  /** An administrator's edit takes effect if and only if no other user of the tenant has the address, and no redemption
      is about to commit that user or that address. */
  lemma SetUserExactly(s: State, key: UserKey, user: User, maxDelay: real)
    ensures var t := Step(s, SetUser(key, user), maxDelay);
            var refused := (exists k :: k in s.users && k != key && Clashes(user, s.users[k]))
                           || (exists other :: other in s.attempts && s.attempts[other].phase.Flushed?
                                 && var g := s.attempts[other].grant;
                                    key == Linked(g.directory, g.subject) || Clashes(user, g.NewUser()));
            t == if refused then s else s.(users := s.users[key := user])
  {
    var rest := s.users - {key};
    assert forall k :: k in rest <==> k in s.users && k != key;
    assert forall other :: Flushing(s, other) ==> other in s.attempts && s.attempts[other].phase.Flushed?;
  }

  /** A prune removes the reservations that have run out and no others; a removal removes that user and no other. */
  lemma OtherStepsExactly(s: State, key: UserKey, maxDelay: real)
    ensures var t := Step(s, Prune, maxDelay);
            && t == s.(jtis := t.jtis)
            && (forall k :: k in t.jtis <==> k in s.jtis && s.now <= s.jtis[k])
            && (forall k :: k in t.jtis ==> t.jtis[k] == s.jtis[k])
    ensures Step(s, RemoveUser(key), maxDelay) == s.(users := s.users - {key})
    ensures forall seconds :: seconds >= 0.0 ==>
              Step(s, Tick(seconds), maxDelay) == s.(now := s.now + seconds)
  {
  }
}
