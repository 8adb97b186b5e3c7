/** Two redemptions of one ID-JAG that race, for a subject without a user row (api/ema_oauth.py, step 5). */
module EmaRace {
  import opened EmaRedemption
  import opened EmaReplay

  /** Steps of the two redemptions in any order, with time passing and prunes in between. */
  predicate RaceEvent(e: Event, a: nat, b: nat) {
    e in {Lookup(a), Flush(a), Finish(a), Lookup(b), Flush(b), Finish(b), Prune} || e.Tick?
  }

  predicate IsRace(es: seq<Event>, a: nat, b: nat) {
    forall i :: 0 <= i < |es| ==> RaceEvent(es[i], a, b)
  }

  /** Both attempts hold the same validated grant, and nothing of it has been stored. */
  predicate AtStart(s: State, a: nat, b: nat) {
    && a != b && PhaseIs(s, a, Validated) && PhaseIs(s, b, Validated)
    && s.attempts[a].grant == s.attempts[b].grant && !Taken(s, s.attempts[a].grant)
  }

  /** `w` has committed the grant and the new user. */
  predicate HasCommitted(s: State, es: seq<Event>, w: nat, maxDelay: real) {
    es != [] &&
    var (before, e) := (Run(s, es[..|es| - 1], maxDelay), es[|es| - 1]);
    HasCommitted(s, es[..|es| - 1], w, maxDelay) || (e == Finish(w) && PhaseIs(before, w, Flushed))
  }

  /** The lookup of `l` took place after the commit of `w`. */
  predicate LookedUpAfter(s: State, es: seq<Event>, w: nat, l: nat, maxDelay: real) {
    es != [] &&
    var (before, e) := (Run(s, es[..|es| - 1], maxDelay), es[|es| - 1]);
    || LookedUpAfter(s, es[..|es| - 1], w, l, maxDelay)
    || (LooksUp(before, e, l) && HasCommitted(s, es[..|es| - 1], w, maxDelay))
  }

  // --- Before and after the commit ---------------------------------------------------------

  /** Nobody has committed. */
  predicate Undecided(s: State, t: State, a: nat, b: nat) {
    && a in s.attempts && b in s.attempts && a in t.attempts && b in t.attempts
    && t.attempts[a].phase in {Validated, Missing, Flushed} && t.attempts[b].phase in {Validated, Missing, Flushed}
    && t.attempts[a].grant == t.attempts[b].grant == s.attempts[a].grant == s.attempts[b].grant
    && !Taken(t, s.attempts[a].grant)
    && t.attempts[a].decodedAt == s.attempts[a].decodedAt && t.attempts[b].decodedAt == s.attempts[b].decodedAt
    && t.minted == s.minted
  }

  /** `w` has committed; `l` has looked up afterwards if `late`. */
  predicate Decided(s: State, t: State, w: nat, l: nat, late: bool) {
    && w in s.attempts && l in s.attempts && l in t.attempts
    && PhaseIs(t, w, Ended(Minted)) && t.attempts[l].grant == s.attempts[w].grant
    && t.minted == s.minted + [Mint(s.attempts[w].grant, s.attempts[w].decodedAt)]
    && s.attempts[w].grant.Subject() in t.users && !t.users[s.attempts[w].grant.Subject()].disabled
    && (if late then t.attempts[l].phase in {Found(false), Ended(InvalidGrant)}
        else t.attempts[l].phase in {Validated, Missing, Ended(ServerError)})
  }

  /** Before the commit the two take turns: they cannot both have flushed. */
  lemma OneFlushes(t: State, a: nat, b: nat)
    requires Inv(t) && a != b && Flushing(t, a) && b in t.attempts && t.attempts[a].grant == t.attempts[b].grant
    ensures !Flushing(t, b)
  {
    assert Flushing(t, b) ==> !Collide(t.attempts[a].grant, t.attempts[b].grant);
  }

  /** A step before the commit: it stays undecided, or it is the commit of a flushed attempt. */
  lemma UndecidedStep(s: State, t: State, e: Event, a: nat, b: nat, maxDelay: real)
    requires Inv(t) && Undecided(s, t, a, b) && RaceEvent(e, a, b) && a != b
    ensures var u := Step(t, e, maxDelay);
            if e == Finish(a) && PhaseIs(t, a, Flushed) then Decided(s, u, a, b, false)
            else if e == Finish(b) && PhaseIs(t, b, Flushed) then Decided(s, u, b, a, false)
            else Undecided(s, u, a, b)
  {
    hide Blocked, JtiBlocked, UserLocked, InTime, Inv;
    if Flushing(t, a) { OneFlushes(t, a, b); }
    if Flushing(t, b) { OneFlushes(t, b, a); }
  }

  /** A step after the commit: the row is there, so the other attempt finds it if it has yet to look, and is turned away
      either way. Within the delay the jti is still reserved. */
  lemma DecidedStep(s: State, t: State, e: Event, w: nat, l: nat, late: bool, maxDelay: real)
    requires Inv(t) && maxDelay <= 240.0 && Decided(s, t, w, l, late) && RaceEvent(e, w, l) && w != l
    ensures Decided(s, Step(t, e, maxDelay), w, l, late || LooksUp(t, e, l))
    ensures late ==> !LooksUp(t, e, l)
  {
    hide Blocked, UserLocked, Inv, MailTaken;
    if e == Finish(l) && PhaseIs(t, l, Found(false)) && InTime(t, l, maxDelay) {
      StillReserved(s, t, w, l, maxDelay);
    }
  }

  lemma StillReserved(s: State, t: State, w: nat, l: nat, maxDelay: real)
    requires Inv(t) && maxDelay <= 240.0 && w in s.attempts
    requires Live(t, l) && t.attempts[l].grant == s.attempts[w].grant && InTime(t, l, maxDelay)
    requires t.minted == s.minted + [Mint(s.attempts[w].grant, s.attempts[w].decodedAt)]
    ensures t.attempts[l].grant.Key() in t.jtis
  {
    hide Inv;
    assert t.minted[|s.minted|] == Mint(s.attempts[w].grant, s.attempts[w].decodedAt);
    assert t.minted[|s.minted|] in t.minted;
    if t.attempts[l].grant.Key() !in t.jtis {
      FreeKeyMeansUnredeemed(t, l, maxDelay);
      assert false;
    }
  }

  // --- The race ----------------------------------------------------------------------------

  /** Where a race stands after some steps. */
  ghost predicate Stands(s: State, es: seq<Event>, a: nat, b: nat, maxDelay: real) {
    var t := Run(s, es, maxDelay);
    || (!HasCommitted(s, es, a, maxDelay) && !HasCommitted(s, es, b, maxDelay) && Undecided(s, t, a, b)
        && !LookedUpAfter(s, es, a, b, maxDelay) && !LookedUpAfter(s, es, b, a, maxDelay))
    || (HasCommitted(s, es, a, maxDelay) && !HasCommitted(s, es, b, maxDelay)
        && Decided(s, t, a, b, LookedUpAfter(s, es, a, b, maxDelay)))
    || (HasCommitted(s, es, b, maxDelay) && !HasCommitted(s, es, a, maxDelay)
        && Decided(s, t, b, a, LookedUpAfter(s, es, b, a, maxDelay)))
  }

  lemma {:induction false} RaceStands(s: State, es: seq<Event>, a: nat, b: nat, maxDelay: real)
    requires Inv(s) && AtStart(s, a, b) && IsRace(es, a, b) && maxDelay <= 240.0
    ensures Stands(s, es, a, b, maxDelay)
    decreases |es|
  {
    hide Step, Inv, Undecided, Decided, Taken;
    if es == [] {
      assert Undecided(s, s, a, b) by { StartIsUndecided(s, a, b); }
    } else {
      var n := |es| - 1;
      var t := Run(s, es[..n], maxDelay);
      assert forall i :: 0 <= i < n ==> es[..n][i] == es[i];
      RaceStands(s, es[..n], a, b, maxDelay);
      RunKeepsInv(s, es[..n], maxDelay);
      if Undecided(s, t, a, b) && !HasCommitted(s, es[..n], a, maxDelay) && !HasCommitted(s, es[..n], b, maxDelay) {
        UndecidedStep(s, t, es[n], a, b, maxDelay);
      } else if HasCommitted(s, es[..n], a, maxDelay) {
        DecidedStep(s, t, es[n], a, b, LookedUpAfter(s, es[..n], a, b, maxDelay), maxDelay);
        LoserNeverCommits(s, t, a, b, LookedUpAfter(s, es[..n], a, b, maxDelay));
      } else {
        DecidedStep(s, t, es[n], b, a, LookedUpAfter(s, es[..n], b, a, maxDelay), maxDelay);
        LoserNeverCommits(s, t, b, a, LookedUpAfter(s, es[..n], b, a, maxDelay));
      }
    }
  }

  lemma StartIsUndecided(s: State, a: nat, b: nat)
    requires AtStart(s, a, b)
    ensures Undecided(s, s, a, b)
  {
  }

  lemma LoserNeverCommits(s: State, t: State, w: nat, l: nat, late: bool)
    requires Decided(s, t, w, l, late)
    ensures !PhaseIs(t, l, Flushed)
  {
  }

  /** In every run of the two redemptions in which both come to an end exactly one mints. The other one is rejected
      cleanly if and only if it looked for the user after the winner's commit; otherwise it ends in a server error. */
  lemma ExactlyOneMints(s: State, es: seq<Event>, a: nat, b: nat, maxDelay: real)
    requires Inv(s) && AtStart(s, a, b) && IsRace(es, a, b) && maxDelay <= 240.0
    requires var t := Run(s, es, maxDelay); !Live(t, a) && !Live(t, b)
    ensures var t := Run(s, es, maxDelay);
            exists w, l :: {w, l} == {a, b} && w != l
              && PhaseIs(t, w, Ended(Minted))
              && PhaseIs(t, l, Ended(if LookedUpAfter(s, es, w, l, maxDelay) then InvalidGrant else ServerError))
              && t.minted == s.minted + [Mint(s.attempts[w].grant, s.attempts[w].decodedAt)]
  {
    RaceStands(s, es, a, b, maxDelay);
    hide Step, Run, Inv, Taken, HasCommitted, LookedUpAfter;
    if HasCommitted(s, es, a, maxDelay) {
      assert {a, b} == {a, b};
    } else {
      assert {b, a} == {a, b};
    }
  }

  // --- Both happen -------------------------------------------------------------------------

  /** The loser's lookup comes before the winner's commit, its flush after. */
  function EarlyLookup(a: nat, b: nat): seq<Event> {
    [Lookup(a), Lookup(b), Flush(a), Finish(a), Flush(b)]
  }

  function LateLookup(a: nat, b: nat): seq<Event> {
    [Lookup(a), Flush(a), Finish(a), Lookup(b), Finish(b)]
  }

  /** So a replay that loses a race can end in a server error although the subject has a user row by then. */
  lemma LoserEndsEitherWay(s: State, a: nat, b: nat, maxDelay: real)
    requires AtStart(s, a, b) && InTime(s, a, maxDelay) && InTime(s, b, maxDelay)
    requires NoneFlushing(s)
    ensures var t := Run(s, EarlyLookup(a, b), maxDelay);
            && PhaseIs(t, a, Ended(Minted)) && PhaseIs(t, b, Ended(ServerError))
            && s.attempts[b].grant.Subject() in t.users
    ensures var t := Run(s, LateLookup(a, b), maxDelay);
            PhaseIs(t, a, Ended(Minted)) && PhaseIs(t, b, Ended(InvalidGrant))
  {
    hide Step, Run, Taken;
    Unseen(s, a, b, maxDelay);
    var s1 := Step(s, Lookup(a), maxDelay);
    var s2 := Step(s1, Lookup(b), maxDelay);
    RunOfFive(s, Lookup(a), Lookup(b), Flush(a), Finish(a), Flush(b), maxDelay);
    RunOfFive(s, Lookup(a), Flush(a), Finish(a), Lookup(b), Finish(b), maxDelay);
    CommitAlone(s2, a, b, maxDelay);
    FlushTooLate(Step(Step(s2, Flush(a), maxDelay), Finish(a), maxDelay), a, b, maxDelay);
    CommitAlone(s1, a, b, maxDelay);
    LookupInTime(Step(Step(s1, Flush(a), maxDelay), Finish(a), maxDelay), a, b, maxDelay);
  }

  lemma Unseen(s: State, a: nat, b: nat, maxDelay: real)
    requires AtStart(s, a, b)
    ensures var s1 := Step(s, Lookup(a), maxDelay);
            var s2 := Step(s1, Lookup(b), maxDelay);
            && s1 == s.(attempts := s.attempts[a := s.attempts[a].(phase := Missing)])
            && s2 == s1.(attempts := s1.attempts[b := s1.attempts[b].(phase := Missing)])
            && !Taken(s1, s.attempts[a].grant) && !Taken(s2, s.attempts[a].grant)
  {
    assert MailTaken(s, s.attempts[a].grant.NewUser())
        == MailTaken(Step(s, Lookup(a), maxDelay), s.attempts[a].grant.NewUser());
  }

  predicate NoneFlushing(s: State) {
    forall other :: other in s.attempts ==> !Flushing(s, other)
  }

  /** `a` flushes and commits while `b` does nothing. */
  lemma CommitAlone(s: State, a: nat, b: nat, maxDelay: real)
    requires a != b && PhaseIs(s, a, Missing) && b in s.attempts && s.attempts[a].grant == s.attempts[b].grant
    requires InTime(s, a, maxDelay) && !Taken(s, s.attempts[a].grant) && NoneFlushing(s)
    ensures var (t, g) := (Step(Step(s, Flush(a), maxDelay), Finish(a), maxDelay), s.attempts[b].grant);
            && PhaseIs(t, a, Ended(Minted)) && b in t.attempts && t.attempts[b] == s.attempts[b] && t.now == s.now
            && NoneFlushing(t) && g.Key() in t.jtis && g.Subject() in t.users && !t.users[g.Subject()].disabled
  {
    hide MailTaken, UserLocked;
  }

  lemma FlushTooLate(t: State, a: nat, b: nat, maxDelay: real)
    requires PhaseIs(t, a, Ended(Minted)) && PhaseIs(t, b, Missing) && InTime(t, b, maxDelay) && NoneFlushing(t)
    requires t.attempts[b].grant.Subject() in t.users
    ensures var u := Step(t, Flush(b), maxDelay);
            PhaseIs(u, a, Ended(Minted)) && PhaseIs(u, b, Ended(ServerError)) && u.users == t.users
  {
    hide MailTaken, UserLocked;
  }

  lemma LookupInTime(t: State, a: nat, b: nat, maxDelay: real)
    requires PhaseIs(t, a, Ended(Minted)) && PhaseIs(t, b, Validated) && InTime(t, b, maxDelay) && NoneFlushing(t)
    requires var g := t.attempts[b].grant; g.Key() in t.jtis && g.Subject() in t.users && !t.users[g.Subject()].disabled
    ensures var u := Step(Step(t, Lookup(b), maxDelay), Finish(b), maxDelay);
            PhaseIs(u, a, Ended(Minted)) && PhaseIs(u, b, Ended(InvalidGrant))
  {
    hide Taken, UserLocked;
  }

  lemma RunOfFive(s: State, e1: Event, e2: Event, e3: Event, e4: Event, e5: Event, maxDelay: real)
    ensures Run(s, [e1, e2, e3, e4, e5], maxDelay)
         == Step(Step(Step(Step(Step(s, e1, maxDelay), e2, maxDelay), e3, maxDelay), e4, maxDelay), e5, maxDelay)
  {
    hide Step;
    var es := [e1, e2, e3, e4, e5];
    assert es[..4] == [e1, e2, e3, e4] && [e1, e2, e3, e4][..3] == [e1, e2, e3];
    assert [e1, e2, e3][..2] == [e1, e2] && [e1, e2][..1] == [e1] && [e1][..0] == [];
    assert Run(s, [e1], maxDelay) == Step(s, e1, maxDelay);
    assert Run(s, [e1, e2], maxDelay) == Step(Run(s, [e1], maxDelay), e2, maxDelay);
    assert Run(s, [e1, e2, e3], maxDelay) == Step(Run(s, [e1, e2], maxDelay), e3, maxDelay);
    assert Run(s, [e1, e2, e3, e4], maxDelay) == Step(Run(s, [e1, e2, e3], maxDelay), e4, maxDelay);
  }
}
