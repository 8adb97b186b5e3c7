/** The signing-key cache of the EMA endpoint (`EmaJwksFetcher` in api/ema_oauth.py) under concurrent lookups. A lookup
    runs uninterrupted up to its fetch and again from the end of the fetch; fetches overlap freely. */
module JwksCache {
  import opened Options

  const TTL_SECONDS := 300.0

  type Key = string
  type Keys = map<string, Key>

  // --- Building the key table of one document -------------------------------------------

  /** One element of a JWKS document: an object with a string `kid`, or anything else. */
  datatype Jwk = Jwk(kid: string, key: Key) | Unusable

  function IndexOf(jwks: seq<Jwk>): Keys {
    if jwks == [] then map[]
    else
      var before, last := IndexOf(jwks[..|jwks| - 1]), jwks[|jwks| - 1];
      if last.Jwk? then before[last.kid := last.key] else before
  }

  method IndexKeys(jwks: seq<Jwk>) returns (keys: Keys)
    ensures keys == IndexOf(jwks)
  {
    keys := map[];
    for i := 0 to |jwks|
      invariant keys == IndexOf(jwks[..i])
    {
      assert jwks[..i + 1][..i] == jwks[..i];
      if jwks[i].Jwk? {
        keys := keys[jwks[i].kid := jwks[i].key];
      }
    }
    assert jwks[..|jwks|] == jwks;
  }

  /** A kid is found exactly when some usable element carries it, and then the last such element counts. */
  lemma {:induction false} LastKeyWins(jwks: seq<Jwk>, kid: string)
    ensures kid in IndexOf(jwks) <==> exists i :: 0 <= i < |jwks| && jwks[i].Jwk? && jwks[i].kid == kid
    ensures kid in IndexOf(jwks) ==>
      exists i :: 0 <= i < |jwks| && jwks[i] == Jwk(kid, IndexOf(jwks)[kid])
                  && forall j :: i < j < |jwks| && jwks[j].Jwk? ==> jwks[j].kid != kid
  {
    if jwks != [] {
      var front, last := jwks[..|jwks| - 1], jwks[|jwks| - 1];
      LastKeyWins(front, kid);
      assert forall i :: 0 <= i < |front| ==> front[i] == jwks[i];
      if last.Jwk? && last.kid == kid {
        assert jwks[|jwks| - 1] == Jwk(kid, IndexOf(jwks)[kid]);
      } else if kid in IndexOf(front) {
        var i :| 0 <= i < |front| && front[i] == Jwk(kid, IndexOf(front)[kid])
                 && forall j :: i < j < |front| && front[j].Jwk? ==> front[j].kid != kid;
        assert jwks[i] == Jwk(kid, IndexOf(jwks)[kid]);
        forall j | i < j < |jwks| && jwks[j].Jwk? ensures jwks[j].kid != kid {
          if j < |front| {
            assert front[j] == jwks[j];
          }
        }
      }
    }
  }

  // --- Directories and their documents ------------------------------------------------------

  datatype Directory = Directory(issuer: string, jwksUri: Option<string>)

  /** The cache is keyed by the explicit URI or, when that is absent or empty, by the issuer. */
  function Source(d: Directory): string {
    if d.jwksUri.Some? && d.jwksUri.value != "" then d.jwksUri.value else d.issuer
  }

  predicate Explicit(d: Directory) {
    d.jwksUri.Some? && d.jwksUri.value != ""
  }

  /** What the network serves over time: where an issuer's discovery document points, and the keys behind a URL. */
  datatype Web = Web(pointsTo: (string, real) -> string, serves: (string, real) -> Keys)

  /** The document of a source, read through discovery at `t1` when there is no explicit URI, and then at `t2`. */
  function Document(web: Web, explicit: bool, source: string, t1: real, t2: real): Keys {
    web.serves(if explicit then source else web.pointsTo(source, t1), t2)
  }

  // --- The cache ---------------------------------------------------------------------------------

  datatype Entry = Entry(fetchedAt: real, keys: Keys)

  type Cache = map<string, Entry>

  /** A fresh entry answers for the kids it has, and only for those. */
  function Hit(cache: Cache, d: Directory, kid: string, now: real): Option<Key> {
    if Source(d) in cache && now - cache[Source(d)].fetchedAt <= TTL_SECONDS && kid in cache[Source(d)].keys
    then Some(cache[Source(d)].keys[kid])
    else None
  }

  function Find(keys: Keys, kid: string): Option<Key> {
    if kid in keys then Some(keys[kid]) else None
  }

  class EmaJwksFetcher {
    var cache: Cache

    constructor ()
      ensures cache == map[]
    {
      cache := map[];
    }

    /** Up to the fetch: a key from the cache, or None when a fetch is due. */
    method Lookup(d: Directory, kid: string, now: real) returns (key: Option<Key>)
      ensures key == Hit(cache, d, kid, now)
    {
      if Source(d) in cache {
        var cached := cache[Source(d)];
        if now - cached.fetchedAt <= TTL_SECONDS && kid in cached.keys {
          return Some(cached.keys[kid]);
        }
      }
      key := None;
    }

    /** After the fetch: the entry is replaced whatever it holds by now, and the key is looked for in the new one. */
    method Store(d: Directory, kid: string, keys: Keys, now: real) returns (key: Option<Key>)
      modifies this
      ensures cache == old(cache)[Source(d) := Entry(now, keys)]
      ensures key == Find(keys, kid)
    {
      cache := cache[Source(d) := Entry(now, keys)];
      key := if kid in keys then Some(keys[kid]) else None;
    }
  }

  // --- Concurrent lookups --------------------------------------------------------------------------

  datatype Call = Call(directory: Directory, kid: string, startedAt: real)

  datatype Answer = Answer(directory: Directory, kid: string, key: Option<Key>, startedAt: real, at: real)

  datatype State = State(now: real, cache: Cache, fetching: map<nat, Call>, answers: seq<Answer>)

  datatype Event =
    | Tick(seconds: real)
    | Ask(id: nat, directory: Directory, kid: string)
    | Fetched(id: nat, t1: real, t2: real)      // the fetch read discovery at t1 and the keys at t2
    | FetchFailed(id: nat)

  /** A fetch takes at most `maxFetch`; an empty explicit URI cannot be fetched. */
  predicate CanFinish(s: State, id: nat, t1: real, t2: real, maxFetch: real) {
    && id in s.fetching
    && s.fetching[id].startedAt <= t1 <= t2 <= s.now <= s.fetching[id].startedAt + maxFetch
    && s.fetching[id].directory.jwksUri != Some("")
  }

  function Step(s: State, e: Event, web: Web, maxFetch: real): State {
    match e
    case Tick(seconds) => if seconds >= 0.0 then s.(now := s.now + seconds) else s
    case Ask(id, d, kid) =>
      if id in s.fetching then s
      else if Hit(s.cache, d, kid, s.now).Some? then
        s.(answers := s.answers + [Answer(d, kid, Hit(s.cache, d, kid, s.now), s.now, s.now)])
      else s.(fetching := s.fetching[id := Call(d, kid, s.now)])
    case Fetched(id, t1, t2) =>
      if !CanFinish(s, id, t1, t2, maxFetch) then s
      else
        var call := s.fetching[id];
        var keys := Document(web, Explicit(call.directory), Source(call.directory), t1, t2);
        s.(cache := s.cache[Source(call.directory) := Entry(s.now, keys)],
           fetching := s.fetching - {id},
           answers := s.answers + [Answer(call.directory, call.kid, Find(keys, call.kid), call.startedAt, s.now)])
    case FetchFailed(id) => s.(fetching := s.fetching - {id})
  }

  function Run(s: State, es: seq<Event>, web: Web, maxFetch: real): State
    decreases |es|
  {
    if es == [] then s else Run(Step(s, es[0], web, maxFetch), es[1..], web, maxFetch)
  }

  predicate Initial(s: State) {
    s.cache == map[] && s.fetching == map[] && s.answers == []
  }

  /** No explicit URI is also some directory's issuer: `uris` tells the two kinds of source apart. */
  predicate Unambiguous(e: Event, uris: set<string>) {
    e.Ask? ==> (Explicit(e.directory) <==> Source(e.directory) in uris)
  }

  predicate AllUnambiguous(es: seq<Event>, uris: set<string>) {
    forall i :: 0 <= i < |es| ==> Unambiguous(es[i], uris)
  }

  // --- Freshness ----------------------------------------------------------------------------------------

  /** `keys` is the document of the source as it was read no earlier than `from` and no later than `to`. */
  ghost predicate PublishedBetween(web: Web, explicit: bool, source: string, keys: Keys, from: real, to: real) {
    exists t1: real, t2: real :: from <= t1 <= t2 <= to && keys == Document(web, explicit, source, t1, t2)
  }

  ghost predicate EntryOk(web: Web, uris: set<string>, source: string, entry: Entry, now: real, maxFetch: real) {
    && entry.fetchedAt <= now
    && PublishedBetween(web, source in uris, source, entry.keys, entry.fetchedAt - maxFetch, entry.fetchedAt)
  }

  /** A key was in the directory's document within the cache lifetime plus one fetch; a kid reported missing was missing
      from the document read during the call itself. */
  ghost predicate AnswerOk(web: Web, a: Answer, maxFetch: real) {
    match a.key
    case Some(key) =>
      exists keys: Keys :: a.kid in keys && keys[a.kid] == key
        && PublishedBetween(web, Explicit(a.directory), Source(a.directory), keys, a.at - 300.0 - maxFetch, a.at)
    case None =>
      exists keys: Keys :: a.kid !in keys
        && PublishedBetween(web, Explicit(a.directory), Source(a.directory), keys, a.startedAt, a.at)
  }

  ghost predicate Inv(s: State, web: Web, uris: set<string>, maxFetch: real) {
    && (forall source :: source in s.cache ==> EntryOk(web, uris, source, s.cache[source], s.now, maxFetch))
    && (forall id :: id in s.fetching ==>
         (Explicit(s.fetching[id].directory) <==> Source(s.fetching[id].directory) in uris))
    && (forall a :: a in s.answers ==> AnswerOk(web, a, maxFetch))
  }

  lemma Widen(web: Web, explicit: bool, source: string, keys: Keys, from: real, to: real, from2: real, to2: real)
    requires PublishedBetween(web, explicit, source, keys, from, to) && from2 <= from && to <= to2
    ensures PublishedBetween(web, explicit, source, keys, from2, to2)
  {
    var t1: real, t2: real :| from <= t1 <= t2 <= to && keys == Document(web, explicit, source, t1, t2);
    assert from2 <= t1 <= t2 <= to2;
  }

  lemma AskKeepsInv(s: State, e: Event, web: Web, uris: set<string>, maxFetch: real)
    requires Inv(s, web, uris, maxFetch) && e.Ask? && Unambiguous(e, uris) && maxFetch >= 0.0
    ensures Inv(Step(s, e, web, maxFetch), web, uris, maxFetch)
  {
    var d, t := e.directory, Step(s, e, web, maxFetch);
    if t.answers != s.answers {
      var entry := s.cache[Source(d)];
      Widen(web, Explicit(d), Source(d), entry.keys, entry.fetchedAt - maxFetch, entry.fetchedAt,
            s.now - TTL_SECONDS - maxFetch, s.now);
      assert AnswerOk(web, t.answers[|s.answers|], maxFetch);
    }
  }

  lemma FetchedKeepsInv(s: State, e: Event, web: Web, uris: set<string>, maxFetch: real)
    requires Inv(s, web, uris, maxFetch) && e.Fetched? && maxFetch >= 0.0
    ensures Inv(Step(s, e, web, maxFetch), web, uris, maxFetch)
  {
    var t := Step(s, e, web, maxFetch);
    if CanFinish(s, e.id, e.t1, e.t2, maxFetch) {
      var call := s.fetching[e.id];
      var explicit, source := Explicit(call.directory), Source(call.directory);
      var keys := Document(web, explicit, source, e.t1, e.t2);
      assert PublishedBetween(web, explicit, source, keys, call.startedAt, s.now);
      Widen(web, explicit, source, keys, call.startedAt, s.now, s.now - maxFetch, s.now);
      Widen(web, explicit, source, keys, call.startedAt, s.now, s.now - TTL_SECONDS - maxFetch, s.now);
      assert AnswerOk(web, t.answers[|s.answers|], maxFetch);
    }
  }

  lemma {:induction false} RunKeepsInv(s: State, es: seq<Event>, web: Web, uris: set<string>, maxFetch: real)
    requires Inv(s, web, uris, maxFetch) && AllUnambiguous(es, uris) && maxFetch >= 0.0
    ensures Inv(Run(s, es, web, maxFetch), web, uris, maxFetch)
    decreases |es|
  {
    if es != [] {
      if es[0].Ask? {
        AskKeepsInv(s, es[0], web, uris, maxFetch);
      } else if es[0].Fetched? {
        FetchedKeepsInv(s, es[0], web, uris, maxFetch);
      }
      RunKeepsInv(Step(s, es[0], web, maxFetch), es[1..], web, uris, maxFetch);
    }
  }

  /** The cache refines direct lookup up to staleness, in every interleaving. */
  lemma AnswersAreFresh(s: State, es: seq<Event>, web: Web, uris: set<string>, maxFetch: real)
    requires Initial(s) && AllUnambiguous(es, uris) && maxFetch >= 0.0
    ensures forall a :: a in Run(s, es, web, maxFetch).answers ==> AnswerOk(web, a, maxFetch)
  {
    RunKeepsInv(s, es, web, uris, maxFetch);
  }

  /** A kid that the document carries throughout a call is never reported missing, however stale the cache. */
  lemma PublishedKidIsFound(s: State, es: seq<Event>, web: Web, uris: set<string>, maxFetch: real, a: Answer)
    requires Initial(s) && AllUnambiguous(es, uris) && maxFetch >= 0.0
    requires a in Run(s, es, web, maxFetch).answers
    requires forall t1: real, t2: real :: a.startedAt <= t1 <= t2 <= a.at ==>
      a.kid in Document(web, Explicit(a.directory), Source(a.directory), t1, t2)
    ensures a.key.Some?
  {
    AnswersAreFresh(s, es, web, uris, maxFetch);
    assert AnswerOk(web, a, maxFetch);
  }

  /** A key that every source published up to time 0 and never again. */
  function Withdrawn(kid: string, key: Key): Web {
    Web((source, t) => source, (url, t) => if t <= 0.0 then map[kid := key] else map[])
  }

  /** The bound is reached: 300 seconds and one fetch after it was withdrawn a key is still handed out. */
  lemma StalenessIsReached(d: Directory, kid: string, key: Key, maxFetch: real)
    requires d.jwksUri != Some("") && maxFetch >= 0.0
    ensures var (web, s) := (Withdrawn(kid, key), State(0.0, map[], map[], []));
            var s1 := Step(Step(s, Ask(0, d, kid), web, maxFetch), Tick(maxFetch), web, maxFetch);
            var s2 := Step(Step(s1, Fetched(0, 0.0, 0.0), web, maxFetch), Tick(300.0), web, maxFetch);
            var t := Step(s2, Ask(1, d, kid), web, maxFetch);
            && t.now == maxFetch + 300.0 && |t.answers| == 2
            && t.answers[1] == Answer(d, kid, Some(key), t.now, t.now)
            && forall t1, t2 :: t2 > 0.0 ==> kid !in Document(web, Explicit(d), Source(d), t1, t2)
  {
    var (web, s) := (Withdrawn(kid, key), State(0.0, map[], map[], []));
    var asked := Step(s, Ask(0, d, kid), web, maxFetch);
    assert asked == s.(fetching := map[0 := Call(d, kid, 0.0)]);
    FetchServesForAWhile(Step(asked, Tick(maxFetch), web, maxFetch), 0, 0.0, 0.0, 300.0, 1, d, kid, web, maxFetch);
  }

  // --- What the cache saves -----------------------------------------------------------------------------

  /** A call is answered without a fetch if and only if its source was fetched at most 300 seconds ago with that kid. */
  lemma AnsweredFromCacheExactly(s: State, id: nat, d: Directory, kid: string, web: Web, maxFetch: real)
    requires id !in s.fetching
    ensures var (t, source) := (Step(s, Ask(id, d, kid), web, maxFetch), Source(d));
            var cached := source in s.cache && s.now - s.cache[source].fetchedAt <= 300.0
                          && kid in s.cache[source].keys;
            && t.cache == s.cache
            && (cached ==>
                  && t.fetching == s.fetching
                  && t.answers == s.answers + [Answer(d, kid, Some(s.cache[source].keys[kid]), s.now, s.now)])
            && (!cached ==> t.answers == s.answers && t.fetching == s.fetching[id := Call(d, kid, s.now)])
  {
  }

  /** So for 300 seconds after a fetch every kid of the fetched document is answered from it, for every directory of
      that source, without asking the network again. */
  lemma FetchServesForAWhile(s: State, id: nat, t1: real, t2: real, wait: real, other: nat, d: Directory, kid: string,
                             web: Web, maxFetch: real)
    requires CanFinish(s, id, t1, t2, maxFetch) && 0.0 <= wait && other !in s.fetching
    requires Source(d) == Source(s.fetching[id].directory)
    ensures var call := s.fetching[id];
            var keys := Document(web, Explicit(call.directory), Source(d), t1, t2);
            var t := Step(Step(s, Fetched(id, t1, t2), web, maxFetch), Tick(wait), web, maxFetch);
            var asked := Step(t, Ask(other, d, kid), web, maxFetch);
            && id !in t.fetching && t.now == s.now + wait
            && t.answers == s.answers + [Answer(call.directory, call.kid, Find(keys, call.kid), call.startedAt, s.now)]
            && (wait <= 300.0 && kid in keys ==>
                  asked.answers == t.answers + [Answer(d, kid, Some(keys[kid]), t.now, t.now)])
            && (wait > 300.0 || kid !in keys ==> asked.answers == t.answers && other in asked.fetching)
  {
    var t := Step(Step(s, Fetched(id, t1, t2), web, maxFetch), Tick(wait), web, maxFetch);
    AnsweredFromCacheExactly(t, other, d, kid, web, maxFetch);
  }

  /** A fetch under way is ended only by its own outcome, and one of an explicit but empty URI only by failure. */
  lemma FetchEndsExactly(s: State, e: Event, id: nat, web: Web, maxFetch: real)
    requires id in s.fetching
    ensures var t := Step(s, e, web, maxFetch);
            && (id in t.fetching ==> t.fetching[id] == s.fetching[id])
            && (id !in t.fetching ==> e == FetchFailed(id) || (e.Fetched? && e.id == id))
            && (e == FetchFailed(id) ==> id !in t.fetching && t.answers == s.answers && t.cache == s.cache)
            && (e.Fetched? && e.id == id && s.fetching[id].directory.jwksUri == Some("") ==> t == s)
  {
  }

  // --- When the assumption fails ------------------------------------------------------------------------

  /** No explicit URI of one directory is the issuer of another one that is looked up by its issuer. */
  predicate SourcesApart(ds: set<Directory>) {
    forall d, e :: d in ds && e in ds && Explicit(d) && !Explicit(e) ==> d.jwksUri.value != e.issuer
  }

  predicate AsksAbout(es: seq<Event>, ds: set<Directory>) {
    forall i :: 0 <= i < |es| && es[i].Ask? ==> es[i].directory in ds
  }

  ghost predicate AllAnswersOk(s: State, web: Web, maxFetch: real) {
    forall a :: a in s.answers ==> AnswerOk(web, a, maxFetch)
  }

  /** Exactly then the cache is sound: for a set of directories, every answer of every run over every web is fresh if
      and only if their sources are apart. */
  lemma FreshExactly(ds: set<Directory>, maxFetch: real)
    requires maxFetch >= 0.0
    ensures SourcesApart(ds)
       <==> forall web: Web, s: State, es: seq<Event> :: Initial(s) && AsksAbout(es, ds) ==>
              AllAnswersOk(Run(s, es, web, maxFetch), web, maxFetch)
  {
    if SourcesApart(ds) {
      forall web: Web, s: State, es: seq<Event> | Initial(s) && AsksAbout(es, ds)
        ensures AllAnswersOk(Run(s, es, web, maxFetch), web, maxFetch)
      {
        FreshWhenApart(ds, s, es, web, maxFetch);
      }
    } else {
      var d, e :| d in ds && e in ds && Explicit(d) && !Explicit(e) && d.jwksUri.value == e.issuer;
      var web, s, es := SharedSourceMixesKeys(d, e, "kid", "key", maxFetch);
      assert AsksAbout(es, ds);
    }
  }

  lemma FreshWhenApart(ds: set<Directory>, s: State, es: seq<Event>, web: Web, maxFetch: real)
    requires SourcesApart(ds) && Initial(s) && AsksAbout(es, ds) && maxFetch >= 0.0
    ensures AllAnswersOk(Run(s, es, web, maxFetch), web, maxFetch)
  {
    var uris := set d | d in ds && Explicit(d) :: d.jwksUri.value;
    forall i | 0 <= i < |es| ensures Unambiguous(es[i], uris) {
      if es[i].Ask? {
        var e := es[i].directory;
        assert Explicit(e) ==> e in ds && e.jwksUri.value in uris;
      }
    }
    AnswersAreFresh(s, es, web, uris, maxFetch);
  }

  /** The keys are behind `name`; discovery of the issuer `name` leads to a document without keys. */
  function Misleading(name: string, kid: string, key: Key): Web {
    Web((source, t) => name + "x", (url, t) => if url == name then map[kid := key] else map[])
  }

  lemma RunOfThree(s: State, e1: Event, e2: Event, e3: Event, web: Web, maxFetch: real)
    ensures Run(s, [e1, e2, e3], web, maxFetch)
         == Step(Step(Step(s, e1, web, maxFetch), e2, web, maxFetch), e3, web, maxFetch)
  {
    hide Step;
    var s1 := Step(s, e1, web, maxFetch);
    var s2 := Step(s1, e2, web, maxFetch);
    assert [e1, e2, e3][1..] == [e2, e3] && [e2, e3][1..] == [e3] && [e3][1..] == [];
    assert Run(s2, [e3], web, maxFetch) == Step(s2, e3, web, maxFetch);
    assert Run(s1, [e2, e3], web, maxFetch) == Run(s2, [e3], web, maxFetch);
  }

  /** Otherwise a run hands one directory a key that its own document never had: it is asked about `e` after the fetch
      for `d`, whose explicit URI is the issuer of `e`, and answers from the entry they share. */
  lemma SharedSourceMixesKeys(d: Directory, e: Directory, kid: string, key: Key, maxFetch: real)
    returns (web: Web, s: State, es: seq<Event>)
    requires Explicit(d) && !Explicit(e) && d.jwksUri.value == e.issuer && maxFetch >= 0.0
    ensures Initial(s) && es == [Ask(0, d, kid), Fetched(0, 0.0, 0.0), Ask(1, e, kid)]
    ensures var a := Answer(e, kid, Some(key), 0.0, 0.0);
            && a in Run(s, es, web, maxFetch).answers && !AnswerOk(web, a, maxFetch)
            && forall t1, t2 :: kid !in Document(web, Explicit(e), Source(e), t1, t2)
  {
    var name := e.issuer;
    web, s := Misleading(name, kid, key), State(0.0, map[], map[], []);
    es := [Ask(0, d, kid), Fetched(0, 0.0, 0.0), Ask(1, e, kid)];
    var s1 := Step(s, es[0], web, maxFetch);
    assert s1 == s.(fetching := map[0 := Call(d, kid, 0.0)]);
    assert CanFinish(s1, 0, 0.0, 0.0, maxFetch);
    var s2 := Step(s1, es[1], web, maxFetch);
    assert s2.cache == map[name := Entry(0.0, map[kid := key])];
    var s3 := Step(s2, es[2], web, maxFetch);
    assert s3.answers == s2.answers + [Answer(e, kid, Some(key), 0.0, 0.0)];
    RunOfThree(s, es[0], es[1], es[2], web, maxFetch);
    assert s3.answers[|s2.answers|] == Answer(e, kid, Some(key), 0.0, 0.0);
    assert |name + "x"| == |name| + 1;
  }
}
