/** Secret redaction (`redact_secrets` and `_redact_structured` in api/payload_limits.py). A pattern is an arbitrary
    substitution that returns the new text and the number of replacements; the regular expressions themselves are not
    modelled. */
module Redaction {
  import opened Options

  datatype Pattern = Pattern(kind: string, subn: string -> (string, nat))

  type Counts = map<string, nat>

  function CountOf(counts: Counts, kind: string): nat {
    if kind in counts then counts[kind] else 0
  }

  function Merge(a: Counts, b: Counts): Counts {
    map k | k in a.Keys + b.Keys :: CountOf(a, k) + CountOf(b, k)
  }

  // --- One text ---------------------------------------------------------------------

  /** All patterns applied in order, each to the text the earlier ones left. */
  function RedactText(ps: seq<Pattern>, text: string): (string, Counts) {
    if ps == [] then (text, map[])
    else
      var p, (before, counts) := ps[|ps| - 1], RedactText(ps[..|ps| - 1], text);
      var (after, n) := p.subn(before);
      if n > 0 then (after, counts[p.kind := n]) else (before, counts)
  }

  function Redacted(ps: seq<Pattern>, text: string): string {
    RedactText(ps, text).0
  }

  method RedactSecrets(ps: seq<Pattern>, input: string) returns (text: string, counts: Counts)
    ensures (text, counts) == RedactText(ps, input)
  {
    text, counts := input, map[];
    for i := 0 to |ps|
      invariant (text, counts) == RedactText(ps[..i], input)
    {
      var (newText, n) := ps[i].subn(text);
      assert ps[..i + 1][..i] == ps[..i];
      if n > 0 {
        counts := counts[ps[i].kind := n];
        text := newText;
      }
    }
    assert ps[..|ps|] == ps;
  }

  /** The counts name exactly the patterns that fired, so an empty count means that no pattern matches the original
      text, and then the text is handed back as it was. */
  lemma {:induction false} NoCountsMeansNoMatch(ps: seq<Pattern>, text: string)
    ensures RedactText(ps, text).1 == map[] <==> forall i :: 0 <= i < |ps| ==> ps[i].subn(text).1 == 0
    ensures RedactText(ps, text).1 == map[] ==> Redacted(ps, text) == text
  {
    if ps != [] {
      var front, p := ps[..|ps| - 1], ps[|ps| - 1];
      NoCountsMeansNoMatch(front, text);
      if RedactText(front, text).1 == map[] {
        assert forall i :: 0 <= i < |front| ==> front[i] == ps[i];
        if p.subn(text).1 > 0 {
          assert p.kind in RedactText(ps, text).1;
        }
      } else {
        var k :| k in RedactText(front, text).1;
        assert k in RedactText(ps, text).1;
        var i :| 0 <= i < |front| && front[i].subn(text).1 != 0;
        assert ps[i].subn(text).1 != 0;
      }
    }
  }

  // --- Patterns in turn ---------------------------------------------------------------

  predicate Matches(p: Pattern, text: string) {
    p.subn(text).1 > 0
  }

  /** What one pattern makes of a text. */
  function Rewrite(p: Pattern, text: string): string {
    if Matches(p, text) then p.subn(text).0 else text
  }

  lemma OnePattern(p: Pattern, text: string)
    ensures RedactText([p], text) == (Rewrite(p, text), CountsOfOne(p, text))
  {
    assert [p][..0] == [];
  }

  function CountsOfOne(p: Pattern, text: string): Counts {
    if Matches(p, text) then map[p.kind := p.subn(text).1] else map[]
  }

  lemma OneMorePattern(ps: seq<Pattern>, p: Pattern, text: string)
    ensures var before := Redacted(ps, text);
            RedactText(ps + [p], text) == (Rewrite(p, before), RedactText(ps, text).1 + CountsOfOne(p, before))
  {
    assert (ps + [p])[..|ps|] == ps;
    var (counts, n) := (RedactText(ps, text).1, p.subn(Redacted(ps, text)).1);
    assert counts + map[] == counts && counts + map[p.kind := n] == counts[p.kind := n];
  }

  lemma OverrideAssociates(a: Counts, b: Counts, c: Counts)
    ensures (a + b) + c == a + (b + c)
  {
  }

  /** Later patterns work on what earlier ones left, and a count of theirs replaces one of the same kind. */
  lemma {:induction false} PatternsInTurn(a: seq<Pattern>, b: seq<Pattern>, text: string)
    ensures Redacted(a + b, text) == Redacted(b, Redacted(a, text))
    ensures RedactText(a + b, text).1 == RedactText(a, text).1 + RedactText(b, Redacted(a, text)).1
  {
    if b == [] {
      assert a + b == a;
      assert RedactText(a, text).1 + map[] == RedactText(a, text).1;
    } else {
      hide RedactText, Rewrite, CountsOfOne;
      var (front, p) := (b[..|b| - 1], b[|b| - 1]);
      PatternsInTurn(a, front, text);
      OneMorePattern(a + front, p, text);
      OneMorePattern(front, p, Redacted(a, text));
      assert (a + front) + [p] == a + b && front + [p] == b;
      var left := Redacted(a, text);
      OverrideAssociates(RedactText(a, text).1, RedactText(front, left).1, CountsOfOne(p, Redacted(front, left)));
    }
  }

  lemma SplitAt(ps: seq<Pattern>, i: nat)
    requires i < |ps|
    ensures ps == (ps[..i] + [ps[i]]) + ps[i + 1..]
  {
  }

  /** What the pattern at `i` is given. */
  function Before(ps: seq<Pattern>, text: string, i: nat): string
    requires i <= |ps|
  {
    Redacted(ps[..i], text)
  }

  predicate KindsDiffer(ps: seq<Pattern>) {
    forall i, j :: 0 <= i < j < |ps| ==> ps[i].kind != ps[j].kind
  }

  /** A count is the number of replacements that the pattern of that kind made in its turn. */
  lemma CountsTurns(ps: seq<Pattern>, text: string, i: nat)
    requires i < |ps| && KindsDiffer(ps)
    ensures CountOf(RedactText(ps, text).1, ps[i].kind) == ps[i].subn(Before(ps, text, i)).1
  {
    SplitAt(ps, i);
    var (early, late) := (ps[..i] + [ps[i]], ps[i + 1..]);
    PatternsInTurn(early, late, text);
    PatternsInTurn(ps[..i], [ps[i]], text);
    OnePattern(ps[i], Before(ps, text, i));
    OnlyOwnKinds(ps[..i], text, ps[i].kind);
    OnlyOwnKinds(late, Redacted(early, text), ps[i].kind);
  }

  lemma {:induction false} OnlyOwnKinds(ps: seq<Pattern>, text: string, kind: string)
    requires forall i :: 0 <= i < |ps| ==> ps[i].kind != kind
    ensures kind !in RedactText(ps, text).1
  {
    if ps != [] { OnlyOwnKinds(ps[..|ps| - 1], text, kind); }
  }

  /** A pattern leaves nothing that it would match again. */
  ghost predicate CleansUp(p: Pattern) {
    forall text :: !Matches(p, Rewrite(p, text))
  }

  /** Replacements of `p` never make `q` match. */
  ghost predicate Spares(p: Pattern, q: Pattern) {
    forall text :: !Matches(q, text) ==> !Matches(q, Rewrite(p, text))
  }

  ghost predicate WellOrdered(ps: seq<Pattern>) {
    && (forall i :: 0 <= i < |ps| ==> CleansUp(ps[i]))
    && (forall i, j :: 0 <= i < j < |ps| ==> Spares(ps[j], ps[i]))
  }

  /** What redaction is for: with patterns that clean up after themselves and are not undone by later ones, nothing that
      leaves matches any of them, so redacting again finds nothing. */
  lemma {:induction false} NothingMatchesAfterwards(ps: seq<Pattern>, text: string)
    requires WellOrdered(ps)
    ensures forall i :: 0 <= i < |ps| ==> !Matches(ps[i], Redacted(ps, text))
    ensures RedactText(ps, Redacted(ps, text)) == (Redacted(ps, text), map[])
  {
    if ps != [] {
      var (front, p) := (ps[..|ps| - 1], ps[|ps| - 1]);
      NothingMatchesAfterwards(front, text);
      assert Redacted(ps, text) == Rewrite(p, Redacted(front, text));
      forall i | 0 <= i < |ps| ensures !Matches(ps[i], Redacted(ps, text)) {
        if i < |front| {
          assert ps[i] == front[i] && Spares(p, ps[i]);
        }
      }
    }
    NoCountsMeansNoMatch(ps, Redacted(ps, text));
  }

  /** Rewrites one fixed text to another. */
  function Swap(kind: string, from: string, to: string): Pattern {
    Pattern(kind, t => if t == from then (to, 1) else (t, 0))
  }

  /** The second condition is needed: a later pattern that brings back what an earlier one removed undoes it. */
  lemma LaterPatternUndoes(secret: string, mask: string)
    requires secret != mask
    ensures var ps := [Swap("a", secret, mask), Swap("b", mask, secret)];
            Redacted(ps, secret) == secret && Matches(ps[0], Redacted(ps, secret))
            && CleansUp(ps[0]) && CleansUp(ps[1]) && !Spares(ps[1], ps[0])
  {
    var (p, q) := (Swap("a", secret, mask), Swap("b", mask, secret));
    PatternsInTurn([p], [q], secret);
    OnePattern(p, secret);
    OnePattern(q, mask);
    assert [p] + [q] == [p, q];
    assert !Matches(p, mask) && Rewrite(q, mask) == secret;
  }

  // --- Several texts ------------------------------------------------------------------

  /** The hits of every text, added up kind by kind. */
  function HitsOfAll(ps: seq<Pattern>, texts: seq<string>): Counts {
    if texts == [] then map[] else Merge(RedactText(ps, texts[0]).1, HitsOfAll(ps, texts[1..]))
  }

  lemma {:induction false} HitsAppend(ps: seq<Pattern>, a: seq<string>, b: seq<string>)
    ensures HitsOfAll(ps, a + b) == Merge(HitsOfAll(ps, a), HitsOfAll(ps, b))
  {
    if a == [] {
      assert a + b == b;
      assert Merge(map[], HitsOfAll(ps, b)) == HitsOfAll(ps, b);
    } else {
      HitsAppend(ps, a[1..], b);
      HitsCons(ps, a[0], a[1..] + b);
      assert a + b == [a[0]] + (a[1..] + b);
      MergeAssociates(RedactText(ps, a[0]).1, HitsOfAll(ps, a[1..]), HitsOfAll(ps, b));
    }
  }

  function SumOfCounts(ps: seq<Pattern>, texts: seq<string>, kind: string): nat {
    if texts == [] then 0
    else SumOfCounts(ps, texts[..|texts| - 1], kind) + CountOf(RedactText(ps, texts[|texts| - 1]).1, kind)
  }

  /** The hits of a kind are the sum of what each text contributes. */
  lemma {:induction false} HitsAreSums(ps: seq<Pattern>, texts: seq<string>, kind: string)
    ensures CountOf(HitsOfAll(ps, texts), kind) == SumOfCounts(ps, texts, kind)
  {
    hide RedactText;
    if texts != [] {
      var (front, last) := (texts[..|texts| - 1], texts[|texts| - 1]);
      HitsAreSums(ps, front, kind);
      HitsAppend(ps, front, [last]);
      assert front + [last] == texts && [last][1..] == [];
    }
  }

  lemma HitsCons(ps: seq<Pattern>, t: string, texts: seq<string>)
    ensures HitsOfAll(ps, [t] + texts) == Merge(RedactText(ps, t).1, HitsOfAll(ps, texts))
  {
    assert ([t] + texts)[1..] == texts;
  }

  lemma MergeAssociates(a: Counts, b: Counts, c: Counts)
    ensures Merge(Merge(a, b), c) == Merge(a, Merge(b, c))
  {
    var left, right := Merge(Merge(a, b), c), Merge(a, Merge(b, c));
    assert left.Keys == a.Keys + b.Keys + c.Keys == right.Keys;
    forall k | k in left ensures left[k] == right[k] {
      assert CountOf(Merge(a, b), k) == CountOf(a, k) + CountOf(b, k);
      assert CountOf(Merge(b, c), k) == CountOf(b, k) + CountOf(c, k);
    }
  }

  lemma {:induction false} NoHitsAnywhere(ps: seq<Pattern>, texts: seq<string>)
    ensures HitsOfAll(ps, texts) == map[] <==> forall t :: t in texts ==> RedactText(ps, t).1 == map[]
  {
    if texts != [] {
      var first, rest := texts[0], texts[1..];
      NoHitsAnywhere(ps, rest);
      MergeEmpty(RedactText(ps, first).1, HitsOfAll(ps, rest));
      if HitsOfAll(ps, texts) == map[] {
        forall t | t in texts ensures RedactText(ps, t).1 == map[] {
          assert t == first || t in rest;
        }
      } else if RedactText(ps, first).1 == map[] {
        var t :| t in rest && RedactText(ps, t).1 != map[];
        assert t in texts;
      } else {
        assert first in texts;
      }
    }
  }

  lemma MergeEmpty(a: Counts, b: Counts)
    ensures Merge(a, b) == map[] <==> a == map[] && b == map[]
  {
    assert Merge(a, b).Keys == a.Keys + b.Keys;
    if Merge(a, b) == map[] {
      assert a.Keys == {} && b.Keys == {};
    }
  }

  /** The dict that the redaction steps share and update. */
  class RedactionCounts {
    var hits: Counts

    constructor ()
      ensures hits == map[]
    {
      hits := map[];
    }

    method Add(found: Counts)
      modifies this
      ensures hits == Merge(old(hits), found)
    {
      var todo := found.Keys;
      while todo != {}
        invariant todo <= found.Keys
        invariant hits == Merge(old(hits), found - todo)
      {
        var key :| key in todo;
        hits := hits[key := CountOf(hits, key) + found[key]];
        todo := todo - {key};
      }
      assert found - {} == found;
    }
  }

  // --- Structured content -----------------------------------------------------------------

  datatype Json =
    | JNull
    | JBool(b: bool)
    | JNumber(literal: string)
    | JString(s: string)
    | JArray(items: seq<Json>)
    | JObject(members: seq<Member>)

  datatype Member = Member(key: string, value: Json)

  function RedactJson(ps: seq<Pattern>, v: Json): Json {
    match v
    case JString(s) => JString(Redacted(ps, s))
    case JArray(items) => JArray(seq(|items|, i requires 0 <= i < |items| => RedactJson(ps, items[i])))
    case JObject(members) => JObject(seq(|members|, i requires 0 <= i < |members| =>
      Member(members[i].key, RedactJson(ps, members[i].value))))
    case _ => v
  }

  /** Every string value in document order; object keys are not among them. */
  function Leaves(v: Json): seq<string>
    decreases v, 1
  {
    match v
    case JString(s) => [s]
    case JArray(items) => LeavesOfItems(items)
    case JObject(members) => LeavesOfMembers(members)
    case _ => []
  }

  function LeavesOfItems(items: seq<Json>): seq<string>
    decreases items, 0
  {
    if items == [] then [] else LeavesOfItems(items[..|items| - 1]) + Leaves(items[|items| - 1])
  }

  function LeavesOfMembers(members: seq<Member>): seq<string>
    decreases members, 0
  {
    if members == [] then []
    else LeavesOfMembers(members[..|members| - 1]) + Leaves(members[|members| - 1].value)
  }

  lemma NoLeaves(ps: seq<Pattern>, before: Counts)
    ensures Merge(before, HitsOfAll(ps, [])) == before
  {
  }

  lemma AddLeaves(ps: seq<Pattern>, before: Counts, seen: seq<string>, more: seq<string>)
    ensures Merge(Merge(before, HitsOfAll(ps, seen)), HitsOfAll(ps, more)) == Merge(before, HitsOfAll(ps, seen + more))
  {
    HitsAppend(ps, seen, more);
    MergeAssociates(before, HitsOfAll(ps, seen), HitsOfAll(ps, more));
  }

  /** Redacts every string value and adds every hit to the shared dict. */
  method RedactStructured(ps: seq<Pattern>, v: Json, counts: RedactionCounts) returns (r: Json)
    modifies counts
    ensures r == RedactJson(ps, v)
    ensures counts.hits == Merge(old(counts.hits), HitsOfAll(ps, Leaves(v)))
    decreases v, 1
  {
    ghost var before := counts.hits;
    match v
    case JString(s) =>
      var redacted, found := RedactSecrets(ps, s);
      counts.Add(found);
      r := JString(redacted);
      assert Merge(found, map[]) == found;
    case JArray(items) =>
      var out := RedactItems(ps, items, counts);
      r := JArray(out);
    case JObject(members) =>
      var out := RedactMembers(ps, members, counts);
      r := JObject(out);
    case _ =>
      r := v;
  }

  method RedactItems(ps: seq<Pattern>, items: seq<Json>, counts: RedactionCounts) returns (out: seq<Json>)
    modifies counts
    ensures |out| == |items| && forall i :: 0 <= i < |items| ==> out[i] == RedactJson(ps, items[i])
    ensures counts.hits == Merge(old(counts.hits), HitsOfAll(ps, LeavesOfItems(items)))
    decreases items, 0
  {
    hide Merge, HitsOfAll, RedactJson;
    out := [];
    NoLeaves(ps, counts.hits);
    for i := 0 to |items|
      invariant |out| == i && forall j :: 0 <= j < i ==> out[j] == RedactJson(ps, items[j])
      invariant counts.hits == Merge(old(counts.hits), HitsOfAll(ps, LeavesOfItems(items[..i])))
    {
      var item := RedactStructured(ps, items[i], counts);
      out := out + [item];
      assert items[..i + 1][..i] == items[..i];
      AddLeaves(ps, old(counts.hits), LeavesOfItems(items[..i]), Leaves(items[i]));
    }
    assert items[..|items|] == items;
  }

  method RedactMembers(ps: seq<Pattern>, members: seq<Member>, counts: RedactionCounts) returns (out: seq<Member>)
    modifies counts
    ensures |out| == |members|
    ensures forall i :: 0 <= i < |members| ==> out[i] == Member(members[i].key, RedactJson(ps, members[i].value))
    ensures counts.hits == Merge(old(counts.hits), HitsOfAll(ps, LeavesOfMembers(members)))
    decreases members, 0
  {
    hide Merge, HitsOfAll, RedactJson;
    out := [];
    NoLeaves(ps, counts.hits);
    for i := 0 to |members|
      invariant |out| == i
      invariant forall j :: 0 <= j < i ==> out[j] == Member(members[j].key, RedactJson(ps, members[j].value))
      invariant counts.hits == Merge(old(counts.hits), HitsOfAll(ps, LeavesOfMembers(members[..i])))
    {
      var value := RedactStructured(ps, members[i].value, counts);
      out := out + [Member(members[i].key, value)];
      assert members[..i + 1][..i] == members[..i];
      AddLeaves(ps, old(counts.hits), LeavesOfMembers(members[..i]), Leaves(members[i].value));
    }
    assert members[..|members|] == members;
  }

  // --- Redaction keeps the shape ---------------------------------------------------------------

  /** What one node of a document shows: its kind, its scalar value, its length or its keys. */
  datatype Label =
    | LNull
    | LBool(b: bool)
    | LNumber(literal: string)
    | LString(s: string)
    | LArray(length: nat)
    | LObject(keys: seq<string>)

  function LabelOf(v: Json): Label {
    match v
    case JNull => LNull
    case JBool(b) => LBool(b)
    case JNumber(literal) => LNumber(literal)
    case JString(s) => LString(s)
    case JArray(items) => LArray(|items|)
    case JObject(members) => LObject(seq(|members|, i requires 0 <= i < |members| => members[i].key))
  }

  /** The label at the end of a path of child positions, or None when the path leaves the document. */
  function LabelAt(v: Json, path: seq<nat>): Option<Label>
    decreases |path|
  {
    if path == [] then Some(LabelOf(v))
    else
      match v
      case JArray(items) => if path[0] < |items| then LabelAt(items[path[0]], path[1..]) else None
      case JObject(members) => if path[0] < |members| then LabelAt(members[path[0]].value, path[1..]) else None
      case _ => None
  }

  function RedactLabel(ps: seq<Pattern>, seen: Option<Label>): Option<Label> {
    if seen.Some? && seen.value.LString? then Some(LString(Redacted(ps, seen.value.s))) else seen
  }

  /** At every path the redacted document has the same kind, length, keys and scalar value as the original, except that
      a string is its redaction. */
  lemma {:induction false} RedactionKeepsShape(ps: seq<Pattern>, v: Json, path: seq<nat>)
    ensures LabelAt(RedactJson(ps, v), path) == RedactLabel(ps, LabelAt(v, path))
    decreases |path|
  {
    if path == [] {
      if v.JObject? {
        assert LabelOf(RedactJson(ps, v)).keys == LabelOf(v).keys;
      }
    } else if v.JArray? && path[0] < |v.items| {
      RedactionKeepsShape(ps, v.items[path[0]], path[1..]);
    } else if v.JObject? && path[0] < |v.members| {
      RedactionKeepsShape(ps, v.members[path[0]].value, path[1..]);
    }
  }

  ghost predicate SameLabels(v: Json, w: Json) {
    forall path :: LabelAt(v, path) == LabelAt(w, path)
  }

  lemma ChildLabels(v: Json, w: Json, i: nat)
    requires SameLabels(v, w)
    ensures v.JArray? && w.JArray? && i < |v.items| && i < |w.items| ==> SameLabels(v.items[i], w.items[i])
    ensures v.JObject? && w.JObject? && i < |v.members| && i < |w.members| ==>
              SameLabels(v.members[i].value, w.members[i].value)
  {
    forall path
      ensures v.JArray? && w.JArray? && i < |v.items| && i < |w.items| ==>
                LabelAt(v.items[i], path) == LabelAt(w.items[i], path)
      ensures v.JObject? && w.JObject? && i < |v.members| && i < |w.members| ==>
                LabelAt(v.members[i].value, path) == LabelAt(w.members[i].value, path)
    {
      assert ([i] + path)[1..] == path;
      assert LabelAt(v, [i] + path) == LabelAt(w, [i] + path);
    }
  }

  /** A document is determined by its labels, so `RedactionKeepsShape` says all there is to know about a redaction. */
  lemma {:induction false} LabelsDetermine(v: Json, w: Json)
    requires SameLabels(v, w)
    ensures v == w
  {
    assert LabelAt(v, []) == LabelAt(w, []);
    match v
    case JArray(items) =>
      forall i | 0 <= i < |items| ensures items[i] == w.items[i] {
        ChildLabels(v, w, i);
        LabelsDetermine(items[i], w.items[i]);
      }
    case JObject(members) =>
      assert LabelOf(v).keys == LabelOf(w).keys && |LabelOf(v).keys| == |members| == |w.members|;
      forall i | 0 <= i < |members| ensures members[i] == w.members[i] {
        assert LabelOf(v).keys[i] == LabelOf(w).keys[i];
        ChildLabels(v, w, i);
        LabelsDetermine(members[i].value, w.members[i].value);
      }
    case _ =>
  }

  /** So under the conditions of `NothingMatchesAfterwards` no string value of a redacted document matches a pattern. */
  lemma NothingMatchesInDocument(ps: seq<Pattern>, v: Json, path: seq<nat>, i: nat)
    requires WellOrdered(ps) && i < |ps|
    ensures var seen := LabelAt(RedactJson(ps, v), path);
            seen.Some? && seen.value.LString? ==> !Matches(ps[i], seen.value.s)
  {
    hide RedactJson, RedactText;
    RedactionKeepsShape(ps, v, path);
    var before := LabelAt(v, path);
    if before.Some? && before.value.LString? {
      NothingMatchesAfterwards(ps, before.value.s);
    }
  }

  /** A document in which nothing was counted comes back equal. */
  lemma {:induction false} NoHitsUnchanged(ps: seq<Pattern>, v: Json)
    requires HitsOfAll(ps, Leaves(v)) == map[]
    ensures RedactJson(ps, v) == v
  {
    NoHitsAnywhere(ps, Leaves(v));
    match v
    case JString(s) =>
      NoCountsMeansNoMatch(ps, s);
    case JArray(items) =>
      forall i | 0 <= i < |items| ensures RedactJson(ps, items[i]) == items[i] {
        LeavesOfItem(items, i);
        NoHitsAnywhere(ps, Leaves(items[i]));
        NoHitsUnchanged(ps, items[i]);
      }
    case JObject(members) =>
      forall i | 0 <= i < |members| ensures RedactJson(ps, members[i].value) == members[i].value {
        LeavesOfMember(members, i);
        NoHitsAnywhere(ps, Leaves(members[i].value));
        NoHitsUnchanged(ps, members[i].value);
      }
    case _ =>
  }

  lemma {:induction false} LeavesOfItem(items: seq<Json>, i: nat)
    requires i < |items|
    ensures forall t :: t in Leaves(items[i]) ==> t in LeavesOfItems(items)
  {
    if i < |items| - 1 {
      LeavesOfItem(items[..|items| - 1], i);
    }
  }

  lemma {:induction false} LeavesOfMember(members: seq<Member>, i: nat)
    requires i < |members|
    ensures forall t :: t in Leaves(members[i].value) ==> t in LeavesOfMembers(members)
  {
    if i < |members| - 1 {
      LeavesOfMember(members[..|members| - 1], i);
    }
  }
}
