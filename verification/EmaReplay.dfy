/** How a redemption ends, for all runs: in particular when a replay is turned away cleanly. */
module EmaReplay {
  import opened EmaRedemption

  // --- How an attempt ends ---------------------------------------------------------------

  predicate PhaseIs(s: State, id: nat, phase: Phase) {
    id in s.attempts && s.attempts[id].phase == phase
  }

  /** The lookup of this attempt takes effect. */
  predicate LooksUp(s: State, e: Event, id: nat) {
    e == Lookup(id) && PhaseIs(s, id, Validated)
  }

  predicate FindsRow(s: State, e: Event, id: nat) {
    LooksUp(s, e, id) && s.attempts[id].grant.Subject() in s.users
  }

  predicate FindsNoRow(s: State, e: Event, id: nat) {
    LooksUp(s, e, id) && s.attempts[id].grant.Subject() !in s.users
  }

  /** The insert of its jti and of a new user is carried out and collides. */
  predicate FlushCollides(s: State, e: Event, id: nat, maxDelay: real) {
    && e == Flush(id) && PhaseIs(s, id, Missing) && !Blocked(s, id) && InTime(s, id, maxDelay)
    && Taken(s, s.attempts[id].grant)
  }

  /** The commit of an attempt that found its user in good standing is carried out, with the key free or taken. */
  predicate Commits(s: State, e: Event, id: nat, keyFree: bool, maxDelay: real) {
    && e == Finish(id) && PhaseIs(s, id, Found(false)) && !JtiBlocked(s, id) && InTime(s, id, maxDelay)
    && (keyFree <==> s.attempts[id].grant.Key() !in s.jtis)
  }

  /** The one step that ends an attempt so. */
  predicate Ends(s: State, e: Event, id: nat, o: Outcome, maxDelay: real) {
    match o
    case Minted => (e == Finish(id) && PhaseIs(s, id, Flushed)) || Commits(s, e, id, true, maxDelay)
    case InvalidGrant =>
      || (e.Present? && e.id == id && id !in s.attempts && !Accepts(e.grant, s.now))
      || (e == Finish(id) && PhaseIs(s, id, Found(true)))
      || Commits(s, e, id, false, maxDelay)
    case ServerError => FlushCollides(s, e, id, maxDelay)
    case Aborted => e == Cancel(id) && Live(s, id)
  }

  lemma StepEnds(s: State, e: Event, id: nat, o: Outcome, maxDelay: real)
    ensures PhaseIs(Step(s, e, maxDelay), id, Ended(o)) <==> PhaseIs(s, id, Ended(o)) || Ends(s, e, id, o, maxDelay)
  {
    hide Blocked, JtiBlocked, Taken, MailTaken, UserLocked;
  }

  /** The step at position `j` of a run ends the attempt so. */
  predicate EndsAt(s: State, es: seq<Event>, j: nat, id: nat, o: Outcome, maxDelay: real) {
    j < |es| && Ends(Run(s, es[..j], maxDelay), es[j], id, o, maxDelay)
  }

  /** An attempt has ended in some way if and only if the run contains the step that ends it so. */
  lemma {:induction false} OutcomeExactly(s: State, es: seq<Event>, id: nat, o: Outcome, maxDelay: real)
    requires id !in s.attempts
    ensures PhaseIs(Run(s, es, maxDelay), id, Ended(o)) <==> exists j: nat :: EndsAt(s, es, j, id, o, maxDelay)
    decreases |es|
  {
    hide Step, Ends;
    if es != [] {
      var n := |es| - 1;
      OutcomeExactly(s, es[..n], id, o, maxDelay);
      StepEnds(Run(s, es[..n], maxDelay), es[n], id, o, maxDelay);
      EndsAtTail(s, es, es[..n], id, o, maxDelay);
    }
  }

  lemma EndsAtTail(s: State, es: seq<Event>, front: seq<Event>, id: nat, o: Outcome, maxDelay: real)
    requires es != [] && front == es[..|es| - 1]
    ensures (exists j: nat :: EndsAt(s, es, j, id, o, maxDelay))
       <==> (exists j: nat :: EndsAt(s, front, j, id, o, maxDelay))
            || Ends(Run(s, front, maxDelay), es[|es| - 1], id, o, maxDelay)
  {
    hide Step, Run, Ends;
    var n := |es| - 1;
    forall j: nat | j < n ensures EndsAt(s, front, j, id, o, maxDelay) == EndsAt(s, es, j, id, o, maxDelay) {
      assert front[..j] == es[..j];
    }
    assert EndsAt(s, es, n, id, o, maxDelay) == Ends(Run(s, es[..n], maxDelay), es[n], id, o, maxDelay);
  }

  predicate SawNoRow(s: State, id: nat) {
    id in s.attempts && s.attempts[id].phase in {Missing, Flushed, Ended(ServerError)}
  }

  predicate SawRow(s: State, id: nat) {
    id in s.attempts
    && s.attempts[id].phase in {Found(true), Found(false), Ended(Minted), Ended(InvalidGrant), Ended(Aborted)}
  }

  lemma StepSees(s: State, e: Event, id: nat, maxDelay: real)
    ensures SawNoRow(Step(s, e, maxDelay), id) ==> SawNoRow(s, id) || FindsNoRow(s, e, id)
    ensures SawRow(s, id) || FindsRow(s, e, id) ==> SawRow(Step(s, e, maxDelay), id)
  {
    hide Blocked, JtiBlocked, Taken, MailTaken, UserLocked;
  }

  lemma {:induction false} NoRowWasSeen(s: State, es: seq<Event>, id: nat, maxDelay: real)
    requires id !in s.attempts && SawNoRow(Run(s, es, maxDelay), id)
    ensures exists i :: 0 <= i < |es| && FindsNoRow(Run(s, es[..i], maxDelay), es[i], id)
    decreases |es|
  {
    hide Step, FindsNoRow;
    var n := |es| - 1;
    StepSees(Run(s, es[..n], maxDelay), es[n], id, maxDelay);
    if SawNoRow(Run(s, es[..n], maxDelay), id) {
      NoRowWasSeen(s, es[..n], id, maxDelay);
      var i :| 0 <= i < n && FindsNoRow(Run(s, es[..n][..i], maxDelay), es[..n][i], id);
      assert es[..n][..i] == es[..i];
    }
  }

  /** A redemption ends in an uncaught server error if and only if its lookup found no user row, and then its flush
      met a taken jti, subject or e-mail address. */
  lemma ServerErrorExactly(s: State, es: seq<Event>, id: nat, maxDelay: real)
    requires id !in s.attempts
    ensures PhaseIs(Run(s, es, maxDelay), id, Ended(ServerError))
       <==> exists i, j :: 0 <= i < j < |es| && FindsNoRow(Run(s, es[..i], maxDelay), es[i], id)
                           && FlushCollides(Run(s, es[..j], maxDelay), es[j], id, maxDelay)
  {
    hide Step, Run, FindsNoRow, FlushCollides;
    OutcomeExactly(s, es, id, ServerError, maxDelay);
    assert forall j: nat :: j < |es| && FlushCollides(Run(s, es[..j], maxDelay), es[j], id, maxDelay)
                            ==> EndsAt(s, es, j, id, ServerError, maxDelay);
    if j: nat :| EndsAt(s, es, j, id, ServerError, maxDelay) {
      FlushSawNoRow(Run(s, es[..j], maxDelay), es[j], id, maxDelay);
      NoRowWasSeen(s, es[..j], id, maxDelay);
      var i :| 0 <= i < j && FindsNoRow(Run(s, es[..j][..i], maxDelay), es[..j][i], id);
      assert es[..j][..i] == es[..i];
    }
  }

  lemma FlushSawNoRow(s: State, e: Event, id: nat, maxDelay: real)
    requires FlushCollides(s, e, id, maxDelay)
    ensures SawNoRow(s, id)
  {
  }

  /** An attempt that found its user's row never ends so: from then on a conflict is a clean rejection. */
  lemma {:induction false} FoundRowIsClean(s: State, es: seq<Event>, i: nat, id: nat, maxDelay: real)
    requires i < |es| && FindsRow(Run(s, es[..i], maxDelay), es[i], id)
    ensures SawRow(Run(s, es, maxDelay), id)
    decreases |es|
  {
    hide Step, FindsRow;
    var n := |es| - 1;
    StepSees(Run(s, es[..n], maxDelay), es[n], id, maxDelay);
    if i < n {
      assert es[..n][..i] == es[..i];
      FoundRowIsClean(s, es[..n], i, id, maxDelay);
    }
  }
}
