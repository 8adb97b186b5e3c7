/** E-mail addresses of the users that redemptions create, told character by character: every created row has the
    grant's address without outer white space and in lower case, and what that means for the uniqueness of users. */
module EmaMail {
  import opened EmaRedemption

  predicate UpperCase(c: char) {
    'A' <= c <= 'Z'
  }

  predicate White(c: char) {
    c in {' ', '\t', '\n', '\U{B}', '\U{C}', '\r', '\U{1C}', '\U{1D}', '\U{1E}', '\U{1F}'}
  }

  /** Equal up to case. */
  predicate SameLetter(a: char, b: char) {
    || a == b
    || (UpperCase(a) && b as int == a as int + 32)
    || (UpperCase(b) && a as int == b as int + 32)
  }

  predicate SameLetters(a: string, b: string) {
    |a| == |b| && forall i :: 0 <= i < |a| ==> SameLetter(a[i], b[i])
  }

  /** No upper-case letter, and no white space at either end. */
  predicate Canonical(mail: string) {
    && (forall i :: 0 <= i < |mail| ==> !UpperCase(mail[i]))
    && (mail != "" ==> !White(mail[0]) && !White(mail[|mail| - 1]))
  }

  predicate WhiteFromTo(s: string, from: nat, to: nat)
    requires to <= |s|
  {
    forall i :: from <= i < to ==> White(s[i])
  }

  /** `raw` is white space, then `mail` up to case from position `k` on, and white space. */
  predicate Surrounds(raw: string, mail: string, k: nat) {
    && k + |mail| <= |raw| && WhiteFromTo(raw, 0, k) && WhiteFromTo(raw, k + |mail|, |raw|)
    && forall i :: 0 <= i < |mail| ==> SameLetter(raw[k + i], mail[i])
  }

  ghost predicate Means(raw: string, mail: string) {
    exists k: nat :: Surrounds(raw, mail, k)
  }

  // --- The address of a new user ---------------------------------------------------------------

  lemma {:induction false} Lowered(s: string)
    ensures |Text.Lower(s)| == |s|
    ensures forall i :: 0 <= i < |s| ==> Text.Lower(s)[i] == Text.LowerChar(s[i])
  {
    if s != [] { Lowered(s[1..]); }
  }

  /** `core` stands at position `k` of `s`, between white space only, and neither begins nor ends with any. */
  predicate StandsAt(s: string, core: string, k: nat) {
    && k + |core| <= |s| && core == s[k..k + |core|] && WhiteFromTo(s, 0, k) && WhiteFromTo(s, k + |core|, |s|)
    && (core != "" ==> !White(core[0]) && !White(core[|core| - 1]))
  }

  lemma StandsLater(s: string, core: string, k: nat)
    requires s != "" && White(s[0]) && StandsAt(s[1..], core, k)
    ensures StandsAt(s, core, k + 1)
  {
    assert s == [s[0]] + s[1..];
    assert s[k + 1..k + 1 + |core|] == s[1..][k..k + |core|];
    forall i | 0 <= i < k + 1 ensures White(s[i]) { assert i > 0 ==> s[1..][i - 1] == s[i]; }
    forall i | k + 1 + |core| <= i < |s| ensures White(s[i]) { assert s[1..][i - 1] == s[i]; }
  }

  lemma StandsStill(s: string, core: string, k: nat)
    requires s != "" && White(s[|s| - 1]) && StandsAt(s[..|s| - 1], core, k)
    ensures StandsAt(s, core, k)
  {
    var front := s[..|s| - 1];
    assert s[k..k + |core|] == front[k..k + |core|];
    forall i | 0 <= i < k ensures White(s[i]) { assert front[i] == s[i]; }
    forall i | k + |core| <= i < |s| ensures White(s[i]) { assert i < |front| ==> front[i] == s[i]; }
  }

  lemma {:induction false} Stripped(s: string) returns (k: nat)
    ensures StandsAt(s, Text.Strip(s), k)
    decreases |s|
  {
    if s != [] && Text.Blank(s[0]) {
      hide StandsAt;
      var j := Stripped(s[1..]);
      StandsLater(s, Text.Strip(s[1..]), j);
      k := j + 1;
    } else if s != [] && Text.Blank(s[|s| - 1]) {
      hide StandsAt;
      k := Stripped(s[..|s| - 1]);
      StandsStill(s, Text.Strip(s[..|s| - 1]), k);
    } else {
      k := 0;
    }
  }

  /** A new user's address is canonical and means the grant's. */
  lemma NewMail(g: Grant)
    ensures Canonical(g.NewUser().email) && Means(g.email, g.NewUser().email)
    ensures g.NewUser().tenant == g.tenant && !g.NewUser().disabled
  {
    var k := Stripped(g.email);
    var t := Text.Strip(g.email);
    Lowered(t);
    assert Surrounds(g.email, g.NewUser().email, k);
  }

  lemma EndsOfMeaning(raw: string, mail: string, k: nat)
    requires Canonical(mail) && Surrounds(raw, mail, k) && mail != ""
    ensures !White(raw[k]) && !White(raw[k + |mail| - 1])
  {
    assert SameLetter(raw[k + 0], mail[0]) && SameLetter(raw[k + (|mail| - 1)], mail[|mail| - 1]);
  }

  /** There is only one such address. */
  lemma MailIsDetermined(raw: string, a: string, b: string)
    requires Canonical(a) && Canonical(b) && Means(raw, a) && Means(raw, b)
    ensures a == b
  {
    var k: nat :| Surrounds(raw, a, k);
    var l: nat :| Surrounds(raw, b, l);
    if a != "" { EndsOfMeaning(raw, a, k); }
    if b != "" { EndsOfMeaning(raw, b, l); }
    if a != "" && b != "" {
      assert k == l && |a| == |b|;
      forall i | 0 <= i < |a| ensures a[i] == b[i] {
        assert SameLetter(raw[k + i], a[i]) && SameLetter(raw[k + i], b[i]);
      }
    }
  }

  // --- When an address is taken ------------------------------------------------------------------

  predicate MailsCanonical(s: State) {
    forall key :: key in s.users ==> Canonical(s.users[key].email)
  }

  ghost predicate HasMail(s: State, g: Grant, key: UserKey) {
    key in s.users && s.users[key].tenant == g.tenant && Means(g.email, s.users[key].email)
  }

  lemma MailTakenExactly(s: State, g: Grant)
    requires MailsCanonical(s)
    ensures MailTaken(s, g.NewUser()) <==> exists key :: HasMail(s, g, key)
  {
    NewMail(g);
    if key :| HasMail(s, g, key) {
      MailIsDetermined(g.email, s.users[key].email, g.NewUser().email);
      assert s.users[key].SameMail(g.NewUser());
    } else if MailTaken(s, g.NewUser()) {
      var key :| key in s.users && s.users[key].SameMail(g.NewUser());
      assert HasMail(s, g, key);
    }
  }

  /** The answer to an uncontended attempt, in terms of addresses as they are written: an absent subject gets a server
      error if and only if the jti is redeemed or some user of the tenant has the grant's address, up to case and outer
      white space. */
  lemma AnswerExactly(s: State, g: Grant)
    requires MailsCanonical(s)
    ensures Answer(s, g) == ServerError
       <==> g.Subject() !in s.users && (g.Key() in s.jtis || exists key :: HasMail(s, g, key))
    ensures Answer(s, g) == InvalidGrant
       <==> g.Subject() in s.users && (s.users[g.Subject()].disabled || g.Key() in s.jtis)
    ensures Answer(s, g) in {Minted, ServerError, InvalidGrant}
  {
    MailTakenExactly(s, g);
  }

  // --- Users in runs -----------------------------------------------------------------------------

  /** The commit of an attempt that found no user: it adds one, enabled, of the grant's tenant, under the grant's
      subject, with the grant's address. */
  ghost predicate Creates(s: State, e: Event, key: UserKey, user: User) {
    && e.Finish? && e.id in s.attempts && s.attempts[e.id].phase.Flushed?
    && var g := s.attempts[e.id].grant;
       && key == Linked(g.directory, g.subject) && user.tenant == g.tenant && !user.disabled
       && Canonical(user.email) && Means(g.email, user.email)
  }

  /** A step changes a user only by an administrator's edit or by such a commit, and the commit does create the user. */
  lemma StepCreates(s: State, e: Event, key: UserKey, maxDelay: real)
    ensures var t := Step(s, e, maxDelay);
            && (key in t.users ==>
                  || (key in s.users && t.users[key] == s.users[key])
                  || e == SetUser(key, t.users[key])
                  || Creates(s, e, key, t.users[key]))
            && (e.Finish? && e.id in s.attempts && s.attempts[e.id].phase.Flushed?
                  && key == Linked(s.attempts[e.id].grant.directory, s.attempts[e.id].grant.subject) ==>
                  key in t.users && Creates(s, e, key, t.users[key]))
            && (key in s.users && key !in t.users ==> e == RemoveUser(key))
  {
    hide Canonical, Means, Blocked, JtiBlocked, InTime, Taken, UserLocked, MailTaken;
    if e.Finish? && e.id in s.attempts { NewMail(s.attempts[e.id].grant); }
  }

  /** In every run each user was there from the start, was set by an administrator, or was created by a redemption with
      that address. */
  lemma {:induction false} UsersAreCreated(s: State, es: seq<Event>, key: UserKey, maxDelay: real)
    requires key in Run(s, es, maxDelay).users
    ensures var user := Run(s, es, maxDelay).users[key];
            || (key in s.users && s.users[key] == user)
            || SetUser(key, user) in es
            || exists j :: 0 <= j < |es| && Creates(Run(s, es[..j], maxDelay), es[j], key, user)
    decreases |es|
  {
    hide Step, Creates;
    if es != [] {
      var n := |es| - 1;
      var (before, user) := (Run(s, es[..n], maxDelay), Run(s, es, maxDelay).users[key]);
      StepCreates(before, es[n], key, maxDelay);
      if key in before.users && before.users[key] == user {
        UsersAreCreated(s, es[..n], key, maxDelay);
        if j :| 0 <= j < n && Creates(Run(s, es[..n][..j], maxDelay), es[..n][j], key, user) {
          assert es[..n][..j] == es[..j] && es[..n][j] == es[j];
        }
      }
    }
  }

  predicate SetsCanonical(es: seq<Event>) {
    forall i :: 0 <= i < |es| && es[i].SetUser? ==> Canonical(es[i].user.email)
  }

  predicate NoTwinMails(s: State) {
    forall k, l :: k in s.users && l in s.users && k != l && s.users[k].tenant == s.users[l].tenant ==>
      !SameLetters(s.users[k].email, s.users[l].email)
  }

  /** When all addresses that come from elsewhere are canonical, in every run all addresses are, and no two users of a
      tenant have addresses that differ in case only. */
  lemma NoTwinsEver(s: State, es: seq<Event>, maxDelay: real)
    requires Initial(s) && MailsUnique(s) && MailsCanonical(s) && SetsCanonical(es) && maxDelay <= 240.0
    ensures MailsCanonical(Run(s, es, maxDelay)) && NoTwinMails(Run(s, es, maxDelay))
  {
    var t := Run(s, es, maxDelay);
    MailsStayUnique(s, es, maxDelay);
    forall key | key in t.users ensures Canonical(t.users[key].email) {
      UsersAreCreated(s, es, key, maxDelay);
    }
    forall k, l | k in t.users && l in t.users && SameLetters(t.users[k].email, t.users[l].email)
      ensures t.users[k].email == t.users[l].email
    {
      CanonicalTwins(t.users[k].email, t.users[l].email);
    }
  }

  lemma CanonicalTwins(a: string, b: string)
    requires Canonical(a) && Canonical(b) && SameLetters(a, b)
    ensures a == b
  {
    forall i | 0 <= i < |a| ensures a[i] == b[i] { assert SameLetter(a[i], b[i]); }
  }

  /** Without that condition there can be: an address of some other user that is not canonical is never recognized, and
      the redemption adds a twin. */
  lemma OtherFormsAreNotRecognized(g: Grant, key: UserKey, mail: string, s: State)
    requires key != g.Subject() && g.Key() !in s.jtis && Means(g.email, mail) && !Canonical(mail)
    requires s.users == map[key := User(g.tenant, mail, false)]
    ensures HasMail(s, g, key) && Answer(s, g) == Minted
  {
    hide Canonical, Means;
    NewMail(g);
    assert !s.users[key].SameMail(g.NewUser());
  }
}
