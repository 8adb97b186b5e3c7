/** What statements and transactions of a bound session achieve: the policies withhold nothing of the tenant's own. */
module RowSecurityEffects {
  import opened Options
  import opened RowSecurity

  // --- Statements ----------------------------------------------------------------------------

  /** A row of the tenant's own that the condition picks. */
  predicate Hit(table: Table, id: RowId, where: (RowId, Row) -> bool, t: Tenant) {
    id in table && table[id].tenant == t && where(id, table[id])
  }

  predicate OnlyTable(before: Database, after: Database, name: TableName) {
    match name
    case IdpDirectories => after.auditLog == before.auditLog
    case AdminAuditLog => after.directories == before.directories
  }

  lemma ReachExactly(table: Table, name: TableName, cmd: Command, s: Settings, where: (RowId, Row) -> bool, t: Tenant)
    requires s.tenant == Some(t)
    ensures forall id :: id in Reach(table, name, cmd, s, where) <==> Hit(table, id, where, t)
    ensures forall id :: Hit(table, id, where, t) ==> Reach(table, name, cmd, s, where)[id] == table[id]
  {
    hide Reach;
    ReachWhenBound(table, name, cmd, s, where, t);
  }

  /** A select shows every own row that the condition picks, and changes nothing. */
  lemma SelectShows(db: Database, s: Settings, name: TableName, where: (RowId, Row) -> bool, t: Tenant)
    requires s.tenant == Some(t)
    ensures var (o, table) := (Exec(db, s, Select(name, where)), db.Get(name));
            && o.db == db && o.settings == s && o.result.Rows?
            && (forall id :: id in o.result.rows <==> Hit(table, id, where, t))
            && (forall id :: id in o.result.rows ==> o.result.rows[id] == table[id])
  {
    hide Reach;
    ReachExactly(db.Get(name), name, SelectRows, s, where, t);
  }

  /** An insert adds the row if and only if it is the tenant's own and the id is free, and otherwise fails. */
  lemma InsertAdds(db: Database, s: Settings, name: TableName, id: RowId, row: Row, t: Tenant)
    requires s.tenant == Some(t)
    ensures var (o, table) := (Exec(db, s, Insert(name, id, row)), db.Get(name));
            && (if row.tenant == t && id !in table
                then o.result == Affected({id}) && o.db.Get(name) == table[id := row] && OnlyTable(db, o.db, name)
                else o.result == Failed && o.db == db)
            && o.settings == s
  {
    hide Allowed;
    AllowedWhenBound(name, InsertRows, s, row, t);
  }

  /** An update changes every own row that the condition picks and no other, unless it would give one of them away:
      then it fails and changes nothing. */
  lemma UpdateChanges(db: Database, s: Settings, name: TableName, where: (RowId, Row) -> bool, change: Row -> Row,
                      t: Tenant)
    requires s.tenant == Some(t)
    ensures var (o, table) := (Exec(db, s, Update(name, where, change)), db.Get(name));
            && (o.result.Failed? <==> exists id :: Hit(table, id, where, t) && change(table[id]).tenant != t)
            && (o.result.Failed? ==> o.db == db)
            && (!o.result.Failed? ==>
                  && o.result.Affected? && (forall id :: id in o.result.ids <==> Hit(table, id, where, t))
                  && o.db.Get(name).Keys == table.Keys
                  && (forall id :: id in table ==>
                        o.db.Get(name)[id] == if Hit(table, id, where, t) then change(table[id]) else table[id])
                  && OnlyTable(db, o.db, name))
            && o.settings == s
  {
    hide Reach, Allowed;
    var table := db.Get(name);
    ReachExactly(table, name, UpdateRows, s, where, t);
    forall id | Hit(table, id, where, t)
      ensures Allowed(name, UpdateRows, s, change(table[id])) <==> change(table[id]).tenant == t
    {
      AllowedWhenBound(name, UpdateRows, s, change(table[id]), t);
    }
  }

  /** A delete removes every own row that the condition picks and no other. */
  lemma DeleteRemoves(db: Database, s: Settings, name: TableName, where: (RowId, Row) -> bool, t: Tenant)
    requires s.tenant == Some(t)
    ensures var (o, table) := (Exec(db, s, Delete(name, where)), db.Get(name));
            && o.result.Affected? && (forall id :: id in o.result.ids <==> Hit(table, id, where, t))
            && (forall id :: id in o.db.Get(name) <==> id in table && !Hit(table, id, where, t))
            && (forall id :: id in o.db.Get(name) ==> o.db.Get(name)[id] == table[id])
            && OnlyTable(db, o.db, name) && o.settings == s
  {
    hide Reach;
    ReachExactly(db.Get(name), name, DeleteRows, s, where, t);
  }

  // --- Transactions --------------------------------------------------------------------------

  /** The states a transaction goes through, statement by statement. */
  function After(db: Database, s: Settings, stmts: seq<Statement>, i: nat): Outcome
    requires i <= |stmts|
  {
    if i == 0 then Outcome(db, s, Done)
    else
      var before := After(db, s, stmts, i - 1);
      Exec(before.db, before.settings, stmts[i - 1])
  }

  predicate AllSucceed(db: Database, s: Settings, stmts: seq<Statement>, i: nat)
    requires i <= |stmts|
  {
    forall j :: 0 < j <= i ==> !After(db, s, stmts, j).result.Failed?
  }

  lemma {:induction false} AfterShift(db: Database, s: Settings, stmts: seq<Statement>, i: nat)
    requires 0 < i <= |stmts|
    ensures var first := Exec(db, s, stmts[0]);
            var (here, there) := (After(db, s, stmts, i), After(first.db, first.settings, stmts[1..], i - 1));
            here.db == there.db && here.settings == there.settings && (i > 1 ==> here.result == there.result)
  {
    hide Exec;
    if i > 1 {
      AfterShift(db, s, stmts, i - 1);
      assert stmts[1..][i - 2] == stmts[i - 1];
    } else {
      assert After(db, s, stmts, 0) == Outcome(db, s, Done);
    }
  }

  /** A transaction body fails if and only if one of its statements does; up to there each statement is told what it is
      told after the ones before it, and from there on every one fails. */
  lemma {:induction false} BodyExactly(db: Database, s: Settings, stmts: seq<Statement>)
    ensures var body := ExecAll(db, s, stmts);
            && |body.results| == |stmts|
            && (body.failed <==> !AllSucceed(db, s, stmts, |stmts|))
            && (!body.failed ==> body.db == After(db, s, stmts, |stmts|).db)
            && (forall i :: 0 <= i < |stmts| ==>
                  body.results[i] == if AllSucceed(db, s, stmts, i) then After(db, s, stmts, i + 1).result else Failed)
    decreases |stmts|
  {
    hide Exec;
    if stmts != [] {
      var first := Exec(db, s, stmts[0]);
      assert After(db, s, stmts, 1) == first by { assert After(db, s, stmts, 0) == Outcome(db, s, Done); }
      BodyExactly(first.db, first.settings, stmts[1..]);
      forall i | 0 < i <= |stmts|
        ensures After(db, s, stmts, i).db == After(first.db, first.settings, stmts[1..], i - 1).db
        ensures i > 1 ==> After(db, s, stmts, i).result == After(first.db, first.settings, stmts[1..], i - 1).result
      {
        AfterShift(db, s, stmts, i);
      }
      if !first.result.Failed? {
        forall i | 0 < i <= |stmts|
          ensures AllSucceed(db, s, stmts, i) <==> AllSucceed(first.db, first.settings, stmts[1..], i - 1)
        {
          SucceedShift(db, s, stmts, i);
        }
      }
    }
  }

  lemma SucceedShift(db: Database, s: Settings, stmts: seq<Statement>, i: nat)
    requires 0 < i <= |stmts| && !Exec(db, s, stmts[0]).result.Failed?
    ensures var first := Exec(db, s, stmts[0]);
            AllSucceed(db, s, stmts, i) <==> AllSucceed(first.db, first.settings, stmts[1..], i - 1)
  {
    hide Exec;
    var first := Exec(db, s, stmts[0]);
    assert After(db, s, stmts, 1) == first by { assert After(db, s, stmts, 0) == Outcome(db, s, Done); }
    forall j | 1 < j <= i
      ensures After(db, s, stmts, j).result == After(first.db, first.settings, stmts[1..], j - 1).result
    {
      AfterShift(db, s, stmts, j);
    }
    if AllSucceed(db, s, stmts, i) {
      forall j | 0 < j <= i - 1 ensures !After(first.db, first.settings, stmts[1..], j).result.Failed? {
        assert !After(db, s, stmts, j + 1).result.Failed?;
      }
    }
  }

  /** A transaction is all or nothing: it leaves what all its statements leave, one after the other, if it commits and
      none of them fails, and otherwise the database as it was. */
  lemma TransactionIsAtomic(w: World, tx: Transaction)
    ensures var s := Begin(LeftOn(w, tx.connection), tx.binding);
            Perform(w, tx).0.db == if tx.commit && AllSucceed(w.db, s, tx.statements, |tx.statements|)
                                   then After(w.db, s, tx.statements, |tx.statements|).db else w.db
  {
    BodyExactly(w.db, Begin(LeftOn(w, tx.connection), tx.binding), tx.statements);
  }

  /** Transactions run one after the other, each on what the ones before it have left. */
  lemma {:induction false} RunsInOrder(w: World, txs: seq<Transaction>, tx: Transaction, t: Tenant)
    ensures RunAll(w, txs + [tx]) == Perform(RunAll(w, txs), tx).0
    ensures Observed(w, txs + [tx], t)
         == Observed(w, txs, t) + if tx.binding == Some(t) then [Perform(RunAll(w, txs), tx).1] else []
    decreases |txs|
  {
    hide Perform;
    if txs == [] {
      assert [] + [tx] == [tx] && [tx][1..] == [];
    } else {
      assert (txs + [tx])[1..] == txs[1..] + [tx];
      RunsInOrder(Perform(w, txs[0]).0, txs[1..], tx, t);
    }
  }

  predicate BindsOn(tx: Transaction, c: nat) {
    tx.connection == c && tx.binding.Some?
  }

  /** The i-th transaction of the run runs on `c` and sets the bootstrap setting there. */
  predicate SetsFlagOn(w: World, txs: seq<Transaction>, i: nat, c: nat)
    requires i < |txs|
  {
    txs[i].connection == c && SetsFlag(txs[i].statements, Perform(RunAll(w, txs[..i]), txs[i]).1)
  }

  ghost predicate EverBinds(txs: seq<Transaction>, c: nat) {
    exists tx :: tx in txs && BindsOn(tx, c)
  }

  ghost predicate EverSetsFlag(w: World, txs: seq<Transaction>, c: nat) {
    exists i: nat :: i < |txs| && SetsFlagOn(w, txs, i, c)
  }

  /** A setting reads an empty text exactly when some transaction has set it, and NULL otherwise. */
  ghost predicate ReadsBack(w: World, txs: seq<Transaction>, c: nat) {
    var left := LeftOn(RunAll(w, txs), c);
    && left.tenant == (if EverBinds(txs, c) then Some("") else None)
    && left.bootstrap == (if EverSetsFlag(w, txs, c) then Some("") else None)
  }

  /** What a connection reads between transactions, exactly: an empty text, not NULL, once it has been bound or has been
      given the flag, which is why the policies compare with NULLIF. */
  lemma {:induction false} SettingsReadBack(w: World, txs: seq<Transaction>, c: nat)
    requires w.connections == map[]
    ensures ReadsBack(w, txs, c)
    decreases |txs|
  {
    if txs != [] {
      var front := txs[..|txs| - 1];
      SettingsReadBack(w, front, c);
      assert txs == front + [txs[|txs| - 1]];
      ReadsBackStep(w, front, txs[|txs| - 1], c);
    }
  }

  lemma ReadsBackStep(w: World, front: seq<Transaction>, last: Transaction, c: nat)
    requires ReadsBack(w, front, c)
    ensures ReadsBack(w, front + [last], c)
  {
    hide RunAll, Perform, BindsOn, SetsFlag, LeftOn, EverBinds, EverSetsFlag;
    RunsInOrder(w, front, last, "t");
    LeftAfter(RunAll(w, front), last, c);
    EverBindsOneMore(front, last, c);
    EverSetsOneMore(w, front, last, c);
  }

  lemma EverBindsOneMore(front: seq<Transaction>, last: Transaction, c: nat)
    ensures EverBinds(front + [last], c) <==> EverBinds(front, c) || BindsOn(last, c)
  {
    assert last in front + [last];
  }

  lemma EverSetsOneMore(w: World, front: seq<Transaction>, last: Transaction, c: nat)
    ensures EverSetsFlag(w, front + [last], c)
       <==> EverSetsFlag(w, front, c)
            || (last.connection == c && SetsFlag(last.statements, Perform(RunAll(w, front), last).1))
  {
    hide RunAll, Perform, SetsFlag;
    var (txs, n) := (front + [last], |front|);
    forall i: nat | i < n ensures SetsFlagOn(w, txs, i, c) == SetsFlagOn(w, front, i, c) {
      assert txs[..i] == front[..i];
    }
    assert txs[..n] == front;
    assert SetsFlagOn(w, txs, n, c)
        == (last.connection == c && SetsFlag(last.statements, Perform(RunAll(w, front), last).1));
  }

  lemma LeftAfter(w: World, tx: Transaction, c: nat)
    ensures var (before, (world, results)) := (LeftOn(w, c), Perform(w, tx));
            && LeftOn(world, c).tenant == (if BindsOn(tx, c) then Some("") else before.tenant)
            && LeftOn(world, c).bootstrap
                 == (if tx.connection == c && SetsFlag(tx.statements, results) then Some("") else before.bootstrap)
  {
    hide ExecAll, SetsFlag;
  }
}
