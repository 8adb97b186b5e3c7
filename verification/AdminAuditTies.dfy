/** Paging through the audit log when rows share a timestamp: the query orders by `occurred_at` alone, so every request
    may see such rows in another order. */
module AdminAuditTies {
  import opened Options
  import opened AdminAudit
  import opened Sequences

  /** An order in which the database may return the matching rows. */
  predicate Arranges(a: seq<Row>, matching: seq<Row>) {
    |a| == |matching| && multiset(a) == multiset(matching) && NewestFirst(a)
  }

  /** One order for every offset at which a request may come. */
  predicate OnePerOffset(orders: seq<seq<Row>>, n: nat) {
    |orders| == n + 1 && forall o :: 0 <= o <= n ==> |orders[o]| == n
  }

  predicate AllArrange(orders: seq<seq<Row>>, matching: seq<Row>) {
    |orders| == |matching| + 1 && forall o :: 0 <= o <= |matching| ==> Arranges(orders[o], matching)
  }

  /** The rows that a client sees which follows `next_offset`, when the request at an offset is answered in the order
      `orders[offset]`. */
  function Seen(orders: seq<seq<Row>>, n: nat, limit: nat, offset: nat): seq<Row>
    requires limit >= 1 && OnePerOffset(orders, n) && offset <= n
    decreases n - offset
  {
    var page := PageAt(orders[offset], limit, offset);
    match page.nextOffset
    case None => page.rows
    case Some(next) => page.rows + Seen(orders, n, limit, next)
  }

  /** The timestamp drops at position `p`, or the list begins or ends there. */
  predicate Drops(rows: seq<Row>, p: nat) {
    0 < p < |rows| ==> rows[p - 1].occurredAt > rows[p].occurredAt
  }

  /** No two rows with the same timestamp lie on either side of a page boundary. */
  predicate NoTieAcrossPages(matching: seq<Row>, limit: nat)
    requires limit >= 1
  {
    forall p: nat :: p < |matching| && LastRows(p, limit) == 0 ==> Drops(matching, p)
  }

  predicate Distinct(rows: seq<Row>) {
    forall i, j :: 0 <= i < j < |rows| ==> rows[i] != rows[j]
  }

  // --- What every order agrees on ------------------------------------------------------------

  function CountNewer(rows: seq<Row>, time: int): nat {
    if rows == [] then 0
    else CountNewer(rows[..|rows| - 1], time) + if rows[|rows| - 1].occurredAt >= time then 1 else 0
  }

  lemma {:induction false} CountNewerRemove(rows: seq<Row>, j: nat, time: int)
    requires j < |rows|
    ensures CountNewer(rows, time)
         == CountNewer(rows[..j] + rows[j + 1..], time) + if rows[j].occurredAt >= time then 1 else 0
    decreases |rows|
  {
    var (n, rest) := (|rows| - 1, rows[..j] + rows[j + 1..]);
    if j == n {
      assert rest == rows[..n];
    } else {
      assert rest[..|rest| - 1] == rows[..n][..j] + rows[..n][j + 1..];
      CountNewerRemove(rows[..n], j, time);
    }
  }

  lemma {:induction false} CountNewerOfSame(one: seq<Row>, other: seq<Row>, time: int)
    requires multiset(one) == multiset(other)
    ensures CountNewer(one, time) == CountNewer(other, time)
    decreases |one|
  {
    if one == [] {
      assert |other| == |multiset(other)| == 0;
    } else {
      var j := LastElsewhere(one, other);
      CountNewerOfSame(one[..|one| - 1], other[..j] + other[j + 1..], time);
      CountNewerRemove(other, j, time);
    }
  }

  /** In a sorted list the newer rows come first. */
  predicate Divides(rows: seq<Row>, p: nat, time: int) {
    p <= |rows| && (forall i :: 0 <= i < p ==> rows[i].occurredAt >= time)
      && forall i :: p <= i < |rows| ==> rows[i].occurredAt < time
  }

  lemma {:induction false} NewerComeFirst(rows: seq<Row>, time: int)
    requires NewestFirst(rows)
    ensures Divides(rows, CountNewer(rows, time), time)
    decreases |rows|
  {
    if rows != [] {
      var n := |rows| - 1;
      NewerComeFirst(rows[..n], time);
      assert forall i :: 0 <= i < n ==> rows[..n][i] == rows[i];
      assert forall i :: 0 <= i < n ==> rows[i].occurredAt >= rows[n].occurredAt;
    }
  }

  lemma NewerPart(rows: seq<Row>, p: nat, time: int, r: Row)
    requires Divides(rows, p, time)
    ensures multiset(rows[..p])[r] == if r.occurredAt >= time then multiset(rows)[r] else 0
  {
    assert rows == rows[..p] + rows[p..];
    assert multiset(rows)[r] == multiset(rows[..p])[r] + multiset(rows[p..])[r];
    if r.occurredAt >= time {
      assert r !in rows[p..];
    } else {
      assert r !in rows[..p];
    }
  }

  /** Up to a point where the timestamp drops, every order shows the same rows. */
  lemma SameUpTo(a: seq<Row>, matching: seq<Row>, p: nat)
    requires Arranges(a, matching) && NewestFirst(matching) && p <= |matching|
    requires Drops(matching, p)
    ensures multiset(a[..p]) == multiset(matching[..p])
  {
    if p == |matching| {
      assert a[..p] == a && matching[..p] == matching;
    } else if p > 0 {
      var time := matching[p - 1].occurredAt;
      NewerComeFirst(matching, time);
      NewerComeFirst(a, time);
      CountNewerOfSame(a, matching, time);
      assert CountNewer(matching, time) == p;
      forall r ensures multiset(a[..p])[r] == multiset(matching[..p])[r] {
        NewerPart(a, p, time, r);
        NewerPart(matching, p, time, r);
      }
    }
  }

  lemma MultisetOfSlice(a: seq<Row>, lo: nat, hi: nat)
    requires lo <= hi <= |a|
    ensures multiset(a[lo..hi]) == multiset(a[..hi]) - multiset(a[..lo])
  {
    assert a[..hi] == a[..lo] + a[lo..hi];
  }

  // --- When paging is complete ---------------------------------------------------------------

  /** A page between two such points, or from such a point to the end, shows the same rows in every order. */
  lemma SamePage(a: seq<Row>, matching: seq<Row>, limit: nat, offset: nat)
    requires limit >= 1 && NewestFirst(matching) && NoTieAcrossPages(matching, limit) && Arranges(a, matching)
    requires offset <= |matching| && LastRows(offset, limit) == 0
    ensures var hi := if offset + limit <= |matching| then offset + limit else |matching|;
            && multiset(PageAt(a, limit, offset).rows) == multiset(matching[offset..hi])
            && (hi == offset + limit ==> LastRows(hi, limit) == 0)
  {
    hide LastRows, PageAt, NewestFirst;
    var n := |matching|;
    var hi := if offset + limit <= n then offset + limit else n;
    PageRows(a, limit, offset);
    if hi == offset + limit { DivideStep(hi, limit); }
    SameSlice(a, matching, offset, hi);
    assert a[offset..n] == a[offset..];
  }

  lemma SameSlice(a: seq<Row>, matching: seq<Row>, lo: nat, hi: nat)
    requires Arranges(a, matching) && NewestFirst(matching) && lo <= hi <= |matching|
    requires Drops(matching, lo) && Drops(matching, hi)
    ensures multiset(a[lo..hi]) == multiset(matching[lo..hi])
  {
    hide NewestFirst;
    SameUpTo(a, matching, lo);
    SameUpTo(a, matching, hi);
    MultisetOfSlice(a, lo, hi);
    MultisetOfSlice(matching, lo, hi);
  }

  lemma {:induction false} SeenFrom(orders: seq<seq<Row>>, matching: seq<Row>, limit: nat, offset: nat)
    requires limit >= 1 && NewestFirst(matching) && NoTieAcrossPages(matching, limit)
    requires AllArrange(orders, matching)
    requires offset <= |matching| && LastRows(offset, limit) == 0
    ensures multiset(Seen(orders, |matching|, limit, offset)) == multiset(matching[offset..])
    decreases |matching| - offset
  {
    hide LastRows, PageAt, NewestFirst, NoTieAcrossPages;
    var n := |matching|;
    SamePage(orders[offset], matching, limit, offset);
    PageRows(orders[offset], limit, offset);
    if offset + limit <= n {
      SeenFrom(orders, matching, limit, offset + limit);
      assert matching[offset..] == matching[offset..offset + limit] + matching[offset + limit..];
    } else {
      assert matching[offset..n] == matching[offset..];
    }
  }

  lemma PageRows(a: seq<Row>, limit: nat, offset: nat)
    requires limit >= 1 && offset <= |a|
    ensures PageAt(a, limit, offset).rows == if offset + limit <= |a| then a[offset..offset + limit] else a[offset..]
    ensures PageAt(a, limit, offset).nextOffset == if offset + limit <= |a| then Some(offset + limit) else None
  {
  }

  // --- When it is not ------------------------------------------------------------------------

  /** Two neighbours change places. */
  function Swapped(rows: seq<Row>, p: nat): (swapped: seq<Row>)
    requires 0 < p < |rows|
    ensures |swapped| == |rows|
  {
    rows[..p - 1] + ([rows[p], rows[p - 1]] + rows[p + 1..])
  }

  lemma SwappedArranges(rows: seq<Row>, p: nat)
    requires NewestFirst(rows) && 0 < p < |rows| && rows[p - 1].occurredAt == rows[p].occurredAt
    ensures Arranges(Swapped(rows, p), rows)
  {
    var (front, back) := (rows[..p - 1], rows[p + 1..]);
    assert rows == front + ([rows[p - 1], rows[p]] + back);
    SwapMultiset(front, rows[p - 1], rows[p], back);
    SwappedTimes(rows, p);
  }

  lemma SwapMultiset(front: seq<Row>, x: Row, y: Row, back: seq<Row>)
    ensures multiset(front + ([x, y] + back)) == multiset(front + ([y, x] + back))
  {
    assert multiset([x, y]) == multiset([y, x]);
    assert multiset([x, y] + back) == multiset([y, x] + back);
  }

  lemma SwappedTimes(rows: seq<Row>, p: nat)
    requires NewestFirst(rows) && 0 < p < |rows| && rows[p - 1].occurredAt == rows[p].occurredAt
    ensures NewestFirst(Swapped(rows, p))
  {
    assert forall i :: 0 <= i < |rows| ==> Swapped(rows, p)[i].occurredAt == rows[i].occurredAt;
    hide Swapped;
  }

  function OrderAt(rows: seq<Row>, p: nat, offset: nat): (order: seq<Row>)
    requires 0 < p < |rows|
    ensures |order| == |rows|
  {
    if offset < p then rows else Swapped(rows, p)
  }

  /** The order changes once, between the request that ends at `p` and the next one. */
  function ChangesAt(rows: seq<Row>, p: nat): (orders: seq<seq<Row>>)
    requires 0 < p < |rows|
    ensures OnePerOffset(orders, |rows|)
    ensures forall o :: 0 <= o <= |rows| ==> orders[o] == OrderAt(rows, p, o)
  {
    seq(|rows| + 1, o requires 0 <= o <= |rows| => OrderAt(rows, p, o))
  }

  lemma MultiplesApart(o: nat, p: nat, limit: nat)
    requires limit >= 1 && o < p && LastRows(o, limit) == 0 && LastRows(p, limit) == 0
    ensures o + limit <= p
  {
    var (a, b) := (o / limit, p / limit);
    assert o == a * limit && p == b * limit;
    ProductsApart(a, b, limit);
  }

  lemma ProductsApart(a: nat, b: nat, limit: nat)
    requires a * limit < b * limit
    ensures a * limit + limit <= b * limit
  {
    MultipleIsFar(b - a, limit);
    assert (b - a) * limit == b * limit - a * limit;
  }

  lemma SeenStep(orders: seq<seq<Row>>, n: nat, limit: nat, offset: nat)
    requires limit >= 1 && OnePerOffset(orders, n) && offset <= n
    ensures Seen(orders, n, limit, offset)
         == if offset + limit > n then orders[offset][offset..]
            else orders[offset][offset..offset + limit] + Seen(orders, n, limit, offset + limit)
  {
    hide PageAt;
    PageRows(orders[offset], limit, offset);
  }

  /** All that is seen from an offset on. */
  function Rest(rows: seq<Row>, p: nat, offset: nat): seq<Row>
    requires 0 < p < |rows| && offset <= |rows|
  {
    if offset < p then rows[offset..p] + Swapped(rows, p)[p..] else Swapped(rows, p)[offset..]
  }

  lemma RestStep(rows: seq<Row>, p: nat, offset: nat, hi: nat)
    requires 0 < p < |rows| && offset <= hi <= |rows| && (offset < p ==> hi <= p)
    ensures OrderAt(rows, p, offset)[offset..hi] + Rest(rows, p, hi) == Rest(rows, p, offset)
  {
    hide Swapped;
    var a := Swapped(rows, p);
    if offset < p {
      assert rows[offset..p] == rows[offset..hi] + rows[hi..p];
      assert rows[offset..hi] + (rows[hi..p] + a[p..]) == rows[offset..p] + a[p..];
    } else {
      assert a[offset..] == a[offset..hi] + a[hi..];
    }
  }

  lemma {:induction false} SeenAcrossChange(rows: seq<Row>, p: nat, limit: nat, offset: nat)
    requires limit >= 1 && 0 < p < |rows| && offset <= |rows|
    requires LastRows(p, limit) == 0 && LastRows(offset, limit) == 0
    ensures Seen(ChangesAt(rows, p), |rows|, limit, offset) == Rest(rows, p, offset)
    decreases |rows| - offset
  {
    hide LastRows, Swapped, Seen, Rest, ChangesAt, OrderAt;
    SeenStep(ChangesAt(rows, p), |rows|, limit, offset);
    if offset < p { MultiplesApart(offset, p, limit); }
    if offset + limit <= |rows| {
      DivideStep(offset + limit, limit);
      SeenAcrossChange(rows, p, limit, offset + limit);
      RestStep(rows, p, offset, offset + limit);
    } else {
      LastRest(rows, p, offset);
    }
  }

  lemma LastRest(rows: seq<Row>, p: nat, offset: nat)
    requires 0 < p <= offset <= |rows| && p < |rows|
    ensures Rest(rows, p, offset) == OrderAt(rows, p, offset)[offset..]
  {
  }

  lemma SwappedSize(rows: seq<Row>, p: nat)
    requires 0 < p < |rows|
    ensures |Swapped(rows, p)| == |rows| && Swapped(rows, p)[p] == rows[p - 1]
  {
  }

  lemma ShownTwice(rows: seq<Row>, p: nat, limit: nat)
    requires limit >= 1 && NewestFirst(rows) && Distinct(rows) && 0 < p < |rows| && LastRows(p, limit) == 0
    ensures multiset(Seen(ChangesAt(rows, p), |rows|, limit, 0)) != multiset(rows)
  {
    hide LastRows, Swapped, Seen;
    SwappedSize(rows, p);
    StartIsBoundary(limit);
    SeenAcrossChange(rows, p, limit, 0);
    var (r, a) := (rows[p - 1], Swapped(rows, p));
    assert r in multiset(rows[0..p]) by { assert rows[0..p][p - 1] == r; }
    assert r in multiset(a[p..]) by { assert a[p..][0] == r; }
    assert multiset(rows[0..p] + a[p..])[r] >= 2;
    assert multiset(rows)[r] == 1 by { OnlyOnce(rows, p - 1); }
  }

  lemma StartIsBoundary(limit: nat)
    requires limit >= 1
    ensures LastRows(0, limit) == 0
  {
  }

  lemma OnlyOnce(rows: seq<Row>, i: nat)
    requires Distinct(rows) && i < |rows|
    ensures multiset(rows)[rows[i]] == 1
  {
    assert rows == rows[..i] + [rows[i]] + rows[i + 1..];
    assert rows[i] !in rows[..i] && rows[i] !in rows[i + 1..];
  }

  /** Whatever order each request is answered in, following `next_offset` shows every row exactly once if and only if no
      tie lies across a page boundary. */
  lemma CompleteInAnyOrderExactly(matching: seq<Row>, limit: nat)
    requires limit >= 1 && NewestFirst(matching) && Distinct(matching)
    ensures NoTieAcrossPages(matching, limit)
       <==> forall orders :: AllArrange(orders, matching) ==>
              multiset(Seen(orders, |matching|, limit, 0)) == multiset(matching)
  {
    hide LastRows, Seen, Swapped;
    StartIsBoundary(limit);
    if NoTieAcrossPages(matching, limit) {
      forall orders | AllArrange(orders, matching)
        ensures multiset(Seen(orders, |matching|, limit, 0)) == multiset(matching)
      {
        SeenFrom(orders, matching, limit, 0);
        assert matching[0..] == matching;
      }
    } else {
      var p: nat :| p < |matching| && LastRows(p, limit) == 0 && !Drops(matching, p);
      SwappedArranges(matching, p);
      ShownTwice(matching, p, limit);
      assert AllArrange(ChangesAt(matching, p), matching);
    }
  }
}
