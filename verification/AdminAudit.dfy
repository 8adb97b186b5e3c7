/** The audit log listing of api/admin_audit.py: filters, offset paging and the SQL `LIKE` behind `action_prefix`. The
    table is a sequence of rows in the order in which the database returns them, newest first, ties always alike. */
module AdminAudit {
  import opened Options
  import opened Text

  datatype Row = Row(id: nat, tenant: nat, actorKind: string, action: string, targetKind: Option<string>,
                     occurredAt: int)

  // --- LIKE ----------------------------------------------------------------------------

  /** PostgreSQL's LIKE with its default escape character; a pattern that ends in the middle of an escape matches
      nothing. */
  predicate Like(text: string, pattern: string)
    decreases |pattern| + |text|
  {
    if pattern == "" then text == ""
    else if pattern[0] == '%' then Like(text, pattern[1..]) || (text != "" && Like(text[1..], pattern))
    else if pattern[0] == '_' then text != "" && Like(text[1..], pattern[1..])
    else if pattern[0] == '\\' then
      |pattern| > 1 && text != "" && text[0] == pattern[1] && Like(text[1..], pattern[2..])
    else text != "" && text[0] == pattern[0] && Like(text[1..], pattern[1..])
  }

  predicate Special(c: char) {
    c == '%' || c == '_' || c == '\\'
  }

  predicate Plain(s: string) {
    forall i :: 0 <= i < |s| ==> !Special(s[i])
  }

  lemma {:induction false} AnythingMatches(text: string)
    ensures Like(text, "%")
  {
    if text != "" { AnythingMatches(text[1..]); }
  }

  lemma {:induction false} PlainPrefix(text: string, prefix: string)
    requires Plain(prefix)
    ensures Like(text, prefix + "%") <==> StartsWith(text, prefix)
    decreases |prefix|
  {
    if prefix == "" {
      assert prefix + "%" == "%";
      AnythingMatches(text);
    } else {
      assert (prefix + "%")[1..] == prefix[1..] + "%" && !Special(prefix[0]);
      if text != "" {
        PlainPrefix(text[1..], prefix[1..]);
        assert StartsWith(text, prefix) <==> (text[0] == prefix[0] && StartsWith(text[1..], prefix[1..])) by {
          assert prefix == [prefix[0]] + prefix[1..] && text == [text[0]] + text[1..];
        }
      }
    }
  }

  /** A text that the pattern matches: wildcards are filled with as little as possible. */
  function Shortest(prefix: string): (text: string)
    ensures |text| <= |prefix|
    ensures text == prefix <==> Plain(prefix)
  {
    if prefix == "" then ""
    else
      assert prefix == [prefix[0]] + prefix[1..];
      assert Plain(prefix) <==> !Special(prefix[0]) && Plain(prefix[1..]);
      if prefix[0] == '%' then Shortest(prefix[1..])
      else if prefix[0] == '_' then "x" + Shortest(prefix[1..])
      else if prefix[0] == '\\' then if |prefix| == 1 then "%" else [prefix[1]] + Shortest(prefix[2..])
      else [prefix[0]] + Shortest(prefix[1..])
  }

  lemma {:induction false} ShortestMatches(prefix: string)
    ensures Like(Shortest(prefix), prefix + "%")
    decreases |prefix|
  {
    var (text, pattern) := (Shortest(prefix), prefix + "%");
    if prefix == "" {
      AnythingMatches("");
      assert pattern == "%";
    } else if prefix[0] == '\\' && |prefix| == 1 {
      assert pattern[2..] == "" && text[1..] == "" && text[0] == pattern[1];
    } else if prefix[0] == '\\' {
      ShortestMatches(prefix[2..]);
      assert pattern[2..] == prefix[2..] + "%" && text[1..] == Shortest(prefix[2..]) && text[0] == pattern[1];
    } else {
      ShortestMatches(prefix[1..]);
      assert pattern[1..] == prefix[1..] + "%";
      if prefix[0] != '%' { assert text[1..] == Shortest(prefix[1..]); }
    }
  }

  /** `action_prefix` is documented as a starts-with match. It is one, on all actions, if and only if the prefix has no
      percent sign, underscore or backslash. */
  lemma PrefixMatchExactly(prefix: string)
    ensures (forall action: string :: Like(action, prefix + "%") <==> StartsWith(action, prefix)) <==> Plain(prefix)
  {
    if Plain(prefix) {
      forall action: string ensures Like(action, prefix + "%") <==> StartsWith(action, prefix) {
        PlainPrefix(action, prefix);
      }
    } else {
      ShortestMatches(prefix);
      assert !StartsWith(Shortest(prefix), prefix);
    }
  }

  /** After a plain beginning, a backslash turns the appended percent sign into an ordinary character, so that only one
      action matches; an underscore asks for one character of any kind. */
  lemma {:induction false} SpecialEnds(text: string, plain: string)
    requires Plain(plain)
    ensures Like(text, plain) <==> text == plain
    ensures Like(text, plain + "\\" + "%") <==> text == plain + "%"
    ensures Like(text, plain + "_" + "%") <==> StartsWith(text, plain) && |text| > |plain|
    decreases |plain|
  {
    if plain == "" {
      assert "" + "\\" + "%" == "\\%" && ("\\%")[2..] == "" && "" + "%" == "%";
      assert "" + "_" + "%" == "_%" && ("_%")[1..] == "%";
      if text != "" {
        AnythingMatches(text[1..]);
        assert text[0] == '%' && text[1..] == "" <==> text == "%";
      }
    } else {
      assert !Special(plain[0]) && plain == [plain[0]] + plain[1..];
      assert (plain + "\\" + "%")[1..] == plain[1..] + "\\" + "%";
      assert (plain + "_" + "%")[1..] == plain[1..] + "_" + "%";
      assert plain + "%" == [plain[0]] + (plain[1..] + "%");
      if text != "" {
        SpecialEnds(text[1..], plain[1..]);
        assert text == [text[0]] + text[1..];
        assert text == plain + "%" <==> text[0] == plain[0] && text[1..] == plain[1..] + "%";
        assert StartsWith(text, plain) <==> text[0] == plain[0] && StartsWith(text[1..], plain[1..]);
      }
    }
  }

  // --- The query -----------------------------------------------------------------------

  datatype Filters = Filters(tenant: nat, actorKind: Option<string>, actionPrefix: Option<string>,
                             targetKind: Option<string>, since: Option<int>)

  datatype Condition =
    | TenantIs(tenant: nat)
    | ActorKindIs(kind: string)
    | ActionLike(pattern: string)
    | TargetKindIs(kind: string)
    | OccurredSince(time: int)

  predicate Holds(c: Condition, r: Row) {
    match c
    case TenantIs(tenant) => r.tenant == tenant
    case ActorKindIs(kind) => r.actorKind == kind
    case ActionLike(pattern) => Like(r.action, pattern)
    case TargetKindIs(kind) => r.targetKind == Some(kind)
    case OccurredSince(time) => r.occurredAt >= time
  }

  predicate AllHold(cs: seq<Condition>, r: Row) {
    forall i :: 0 <= i < |cs| ==> Holds(cs[i], r)
  }

  function Select(table: seq<Row>, cs: seq<Condition>): seq<Row> {
    if table == [] then []
    else Select(table[..|table| - 1], cs) + if AllHold(cs, table[|table| - 1]) then [table[|table| - 1]] else []
  }

  /** What the caller asked for; an empty prefix or target kind asks for nothing. */
  predicate Wanted(f: Filters, r: Row) {
    && r.tenant == f.tenant
    && (f.actorKind.Some? ==> r.actorKind == f.actorKind.value)
    && (f.actionPrefix.Some? && f.actionPrefix.value != "" ==> Like(r.action, f.actionPrefix.value + "%"))
    && (f.targetKind.Some? && f.targetKind.value != "" ==> r.targetKind == f.targetKind)
    && (f.since.Some? ==> r.occurredAt >= f.since.value)
  }

  function Matching(table: seq<Row>, f: Filters): seq<Row> {
    if table == [] then []
    else Matching(table[..|table| - 1], f) + if Wanted(f, table[|table| - 1]) then [table[|table| - 1]] else []
  }

  lemma {:induction false} SelectIsMatching(table: seq<Row>, cs: seq<Condition>, f: Filters)
    requires forall r: Row :: AllHold(cs, r) <==> Wanted(f, r)
    ensures Select(table, cs) == Matching(table, f)
  {
    if table != [] { SelectIsMatching(table[..|table| - 1], cs, f); }
  }

  lemma AllHoldOneMore(cs: seq<Condition>, c: Condition, r: Row)
    ensures AllHold(cs + [c], r) <==> AllHold(cs, r) && Holds(c, r)
  {
    if AllHold(cs + [c], r) {
      forall i | 0 <= i < |cs| ensures Holds(cs[i], r) { assert (cs + [c])[i] == cs[i]; }
      assert (cs + [c])[|cs|] == c;
    }
  }

  datatype Page = Page(rows: seq<Row>, totalEstimate: Option<nat>, nextOffset: Option<nat>)

  function Min(a: nat, b: nat): nat {
    if a < b then a else b
  }

  /** The page at an offset into the matching rows. */
  function PageAt(matching: seq<Row>, limit: nat, offset: nat): Page {
    var n := |matching|;
    var rows := matching[Min(offset, n)..Min(offset + limit, n)];
    Page(rows, if offset == 0 then Some(n) else None, if |rows| == limit then Some(offset + |rows|) else None)
  }

  /** The conditions of the filters, put together one after the other. */
  method Where(f: Filters) returns (cs: seq<Condition>)
    ensures forall r: Row :: AllHold(cs, r) <==> Wanted(f, r)
  {
    cs := [TenantIs(f.tenant)];
    assert forall r: Row :: AllHold(cs, r) <==> r.tenant == f.tenant by {
      forall r: Row { AllHoldOneMore([], TenantIs(f.tenant), r); }
      assert [] + [TenantIs(f.tenant)] == cs;
    }
    if f.actorKind.Some? {
      forall r: Row { AllHoldOneMore(cs, ActorKindIs(f.actorKind.value), r); }
      cs := cs + [ActorKindIs(f.actorKind.value)];
    }
    if f.actionPrefix.Some? && f.actionPrefix.value != "" {
      forall r: Row { AllHoldOneMore(cs, ActionLike(f.actionPrefix.value + "%"), r); }
      cs := cs + [ActionLike(f.actionPrefix.value + "%")];
    }
    if f.targetKind.Some? && f.targetKind.value != "" {
      forall r: Row { AllHoldOneMore(cs, TargetKindIs(f.targetKind.value), r); }
      cs := cs + [TargetKindIs(f.targetKind.value)];
    }
    if f.since.Some? {
      forall r: Row { AllHoldOneMore(cs, OccurredSince(f.since.value), r); }
      cs := cs + [OccurredSince(f.since.value)];
    }
  }

  method ListAdminAudit(table: seq<Row>, f: Filters, limit: nat, offset: nat) returns (page: Page)
    requires 1 <= limit <= 500
    ensures page == PageAt(Matching(table, f), limit, offset)
    ensures page.totalEstimate.Some? <==> offset == 0
    ensures offset == 0 ==> page.totalEstimate == Some(|Matching(table, f)|)
  {
    var stmt := Where(f);
    SelectIsMatching(table, stmt, f);
    var selected := Select(table, stmt);
    var skipped := selected[Min(offset, |selected|)..];
    var rows := skipped[..Min(limit, |skipped|)];
    assert rows == selected[Min(offset, |selected|)..Min(offset + limit, |selected|)];
    var totalEstimate: Option<nat> := None;
    if offset == 0 {
      var countStmt := Where(f);
      SelectIsMatching(table, countStmt, f);
      totalEstimate := Some(|Select(table, countStmt)|);
    }
    var nextOffset := if |rows| == limit then Some(offset + |rows|) else None;
    page := Page(rows, totalEstimate, nextOffset);
  }

  // --- Filters and paging ------------------------------------------------------------------

  predicate NewestFirst(rows: seq<Row>) {
    forall i, j :: 0 <= i < j < |rows| ==> rows[i].occurredAt >= rows[j].occurredAt
  }

  /** The matching rows are exactly the wanted ones, each as often as in the table. */
  lemma {:induction false} MatchingExactly(table: seq<Row>, f: Filters, r: Row)
    ensures multiset(Matching(table, f))[r] == if Wanted(f, r) then multiset(table)[r] else 0
  {
    hide Wanted;
    if table != [] {
      MatchingExactly(table[..|table| - 1], f, r);
      assert table == table[..|table| - 1] + [table[|table| - 1]];
    }
  }

  lemma {:induction false} MatchingFromTable(table: seq<Row>, f: Filters, i: nat)
    requires i < |Matching(table, f)|
    ensures Matching(table, f)[i] in table
  {
    var n := |table| - 1;
    assert table == table[..n] + [table[n]];
    if i < |Matching(table[..n], f)| { MatchingFromTable(table[..n], f, i); }
  }

  /** Filters are composed by AND: each one given narrows what the others leave, by its own field alone, and without
      any filter the caller gets the whole log of the tenant. */
  lemma FiltersCompose(f: Filters, r: Row)
    ensures Wanted(f, r) ==> r.tenant == f.tenant
    ensures Wanted(Filters(f.tenant, None, None, None, None), r) <==> r.tenant == f.tenant
    ensures forall kind :: f.actorKind == Some(kind) ==>
              (Wanted(f, r) <==> Wanted(f.(actorKind := None), r) && r.actorKind == kind)
    ensures forall prefix :: f.actionPrefix == Some(prefix) && Plain(prefix) ==>
              (Wanted(f, r) <==> Wanted(f.(actionPrefix := None), r) && StartsWith(r.action, prefix))
    ensures forall kind :: f.targetKind == Some(kind) && kind != "" ==>
              (Wanted(f, r) <==> Wanted(f.(targetKind := None), r) && r.targetKind == Some(kind))
    ensures f.targetKind == Some("") ==> (Wanted(f, r) <==> Wanted(f.(targetKind := None), r))
    ensures forall time :: f.since == Some(time) ==>
              (Wanted(f, r) <==> Wanted(f.(since := None), r) && time <= r.occurredAt)
  {
    if f.actionPrefix.Some? && Plain(f.actionPrefix.value) {
      PlainPrefix(r.action, f.actionPrefix.value);
    }
  }

  /** They stay newest first. */
  lemma {:induction false} MatchingNewestFirst(table: seq<Row>, f: Filters)
    requires NewestFirst(table)
    ensures NewestFirst(Matching(table, f))
  {
    hide Wanted;
    if table != [] {
      var n := |table| - 1;
      MatchingNewestFirst(table[..n], f);
      forall i | 0 <= i < |Matching(table[..n], f)|
        ensures Matching(table[..n], f)[i].occurredAt >= table[n].occurredAt
      {
        MatchingFromTable(table[..n], f, i);
      }
    }
  }

  /** The pages that a client sees which follows `next_offset` until there is none. */
  function Follow(matching: seq<Row>, limit: nat, offset: nat): (pages: seq<Page>)
    requires limit >= 1
    decreases |matching| - offset
  {
    var page := PageAt(matching, limit, offset);
    match page.nextOffset
    case None => [page]
    case Some(next) => [page] + Follow(matching, limit, next)
  }

  function RowsOf(pages: seq<Page>): seq<Row> {
    if pages == [] then [] else pages[0].rows + RowsOf(pages[1..])
  }

  function FullPages(n: nat, limit: nat): nat
    requires limit >= 1
  {
    n / limit
  }

  function LastRows(n: nat, limit: nat): nat
    requires limit >= 1
  {
    n % limit
  }

  lemma RowsOfCons(page: Page, pages: seq<Page>)
    ensures RowsOf([page] + pages) == page.rows + RowsOf(pages)
  {
    assert ([page] + pages)[1..] == pages;
  }

  /** A page that is not the last one is full, and the next one takes up where it ends. */
  lemma FollowStep(matching: seq<Row>, limit: nat, offset: nat)
    requires limit >= 1 && offset <= |matching|
    ensures offset + limit <= |matching| ==>
              && Follow(matching, limit, offset)
                   == [PageAt(matching, limit, offset)] + Follow(matching, limit, offset + limit)
              && PageAt(matching, limit, offset).rows == matching[offset..offset + limit]
    ensures offset + limit > |matching| ==>
              && Follow(matching, limit, offset) == [PageAt(matching, limit, offset)]
              && PageAt(matching, limit, offset).rows == matching[offset..]
  {
    hide RowsOf;
  }

  lemma {:induction false} FollowFrom(matching: seq<Row>, limit: nat, offset: nat)
    requires limit >= 1 && offset <= |matching|
    ensures var pages := Follow(matching, limit, offset);
            && RowsOf(pages) == matching[offset..]
            && |pages| == FullPages(|matching| - offset, limit) + 1
            && |pages[|pages| - 1].rows| == LastRows(|matching| - offset, limit)
            && forall i :: 0 <= i < |pages| - 1 ==> |pages[i].rows| == limit
    decreases |matching| - offset
  {
    hide FullPages, LastRows, Follow, RowsOf, PageAt;
    var (page, n) := (PageAt(matching, limit, offset), |matching|);
    DivideStep(n - offset, limit);
    FollowStep(matching, limit, offset);
    if offset + limit <= n {
      var rest := Follow(matching, limit, offset + limit);
      FollowFrom(matching, limit, offset + limit);
      RowsOfCons(page, rest);
      assert matching[offset..] == matching[offset..offset + limit] + matching[offset + limit..];
      assert ([page] + rest)[|rest|] == rest[|rest| - 1];
    } else {
      RowsOfCons(page, []);
      RowsOfNone();
      assert [page] + [] == [page] && page.rows + [] == page.rows;
    }
  }

  lemma RowsOfNone()
    ensures RowsOf([]) == []
  {
  }

  lemma DivideStep(n: nat, limit: nat)
    requires limit >= 1
    ensures n < limit ==> FullPages(n, limit) == 0 && LastRows(n, limit) == n
    ensures n >= limit ==> FullPages(n, limit) == FullPages(n - limit, limit) + 1
    ensures n >= limit ==> LastRows(n, limit) == LastRows(n - limit, limit)
  {
    if n < limit {
      DivideUnique(n, limit, 0, n);
    } else {
      var (q, r) := ((n - limit) / limit, (n - limit) % limit);
      DivideUnique(n, limit, q + 1, r);
    }
  }

  lemma DivideUnique(n: nat, limit: nat, q: nat, r: nat)
    requires limit >= 1 && n == q * limit + r && r < limit
    ensures n / limit == q && n % limit == r
  {
    MultipleIsFar(n / limit - q, limit);
    assert (n / limit - q) * limit == r - n % limit;
  }

  lemma MultipleIsFar(d: int, limit: nat)
    ensures d >= 1 ==> d * limit >= limit
    ensures d <= -1 ==> d * limit + limit <= 0
  {
  }

  /** On a table that does not change, following `next_offset` from 0 visits every matching row exactly once and in
      order, in floor(n / limit) + 1 pages, all full but the last. The first page announces n, and the last is empty
      when the limit divides n. */
  lemma PagingIsComplete(table: seq<Row>, f: Filters, limit: nat)
    requires limit >= 1
    ensures var n := |Matching(table, f)|;
            var pages := Follow(Matching(table, f), limit, 0);
            && RowsOf(pages) == Matching(table, f)
            && |pages| == n / limit + 1
            && pages[0].totalEstimate == Some(n)
            && (pages[|pages| - 1].rows == [] <==> n % limit == 0)
            && forall i :: 0 <= i < |pages| - 1 ==> |pages[i].rows| == limit
  {
    var matching := Matching(table, f);
    FollowFrom(matching, limit, 0);
    assert matching[0..] == matching;
  }

  /** With k newer rows in front, the page of `shown` rows from `next` on has the old listing's row at `p` again,
      which an earlier page has shown. */
  predicate ShownAgain(k: nat, next: nat, shown: nat, p: nat) {
    p < next <= k + p < next + shown
  }

  lemma PageSizeAfterGrowth(matching: seq<Row>, newer: seq<Row>, limit: nat, next: nat)
    requires next <= |matching|
    ensures |PageAt(newer + matching, limit, next).rows| == Min(limit, |matching| + |newer| - next)
  {
  }

  lemma RowShownAgain(matching: seq<Row>, newer: seq<Row>, limit: nat, next: nat, p: nat)
    requires next <= |matching| && ShownAgain(|newer|, next, |PageAt(newer + matching, limit, next).rows|, p)
    ensures PageAt(newer + matching, limit, next).rows[|newer| + p - next] == matching[p]
  {
    var (all, rows, k) := (newer + matching, PageAt(newer + matching, limit, next).rows, |newer|);
    assert rows == all[next..Min(next + limit, |all|)];
    assert rows[k + p - next] == all[k + p] == matching[p];
  }

  lemma ShownAgainExactly(k: nat, next: nat, shown: nat, limit: nat, n: nat)
    requires 1 <= limit <= next <= n && shown == Min(limit, n + k - next)
    ensures (exists p: nat :: ShownAgain(k, next, shown, p)) <==> 1 <= k < next + limit
  {
    if 1 <= k < next + limit {
      assert ShownAgain(k, next, shown, if k < next then next - k else 0);
    } else {
      forall p: nat ensures !ShownAgain(k, next, shown, p) {
      }
    }
  }

  /** On a table that grows, pages repeat rows: when k newer rows have arrived, the page at `next_offset` holds the rows
      above again. Some row is repeated if and only if 1 <= k < next + limit. */
  lemma NewRowsRepeatExactly(matching: seq<Row>, newer: seq<Row>, limit: nat, offset: nat)
    requires limit >= 1 && PageAt(matching, limit, offset).nextOffset.Some?
    ensures var (k, next) := (|newer|, PageAt(matching, limit, offset).nextOffset.value);
            var rows := PageAt(newer + matching, limit, next).rows;
            && (forall p: nat :: ShownAgain(k, next, |rows|, p) ==> p < |matching| && rows[k + p - next] == matching[p])
            && ((exists p: nat :: ShownAgain(k, next, |rows|, p)) <==> 1 <= k < next + limit)
  {
    hide PageAt;
    NextOffsetOf(matching, limit, offset);
    var (k, next) := (|newer|, offset + limit);
    var rows := PageAt(newer + matching, limit, next).rows;
    forall p: nat | ShownAgain(k, next, |rows|, p) ensures p < |matching| && rows[k + p - next] == matching[p] {
      RowShownAgain(matching, newer, limit, next, p);
    }
    PageSizeAfterGrowth(matching, newer, limit, next);
    ShownAgainExactly(k, next, |rows|, limit, |matching|);
  }

  lemma NextOffsetOf(matching: seq<Row>, limit: nat, offset: nat)
    requires limit >= 1
    ensures PageAt(matching, limit, offset).nextOffset
         == if offset + limit <= |matching| then Some(offset + limit) else None
  {
  }
}
