/** The row-level-security policies on `idp_directories` and `admin_audit_log` (migrations 0014 and 0019) under runs of
    transactions on pooled connections. Both tables FORCE row-level security, so the policies bind every session.

    Transactions are atomic and run one after another. A row id remembers which tenant's sessions generated it, which is
    how the model says that generated ids never collide across tenants. */
module RowSecurity {
  import opened Options

  type Tenant = t: string | t != "" witness "t"

  datatype RowId = RowId(generator: Tenant, number: nat)

  datatype Row = Row(tenant: Tenant, payload: string)

  type Table = map<RowId, Row>

  datatype TableName = IdpDirectories | AdminAuditLog

  datatype Database = Database(directories: Table, auditLog: Table)
  {
    function Get(name: TableName): Table {
      match name
      case IdpDirectories => directories
      case AdminAuditLog => auditLog
    }

    function Set(name: TableName, table: Table): Database {
      match name
      case IdpDirectories => this.(directories := table)
      case AdminAuditLog => this.(auditLog := table)
    }
  }

  /** `current_setting(name, TRUE)`: None is SQL NULL. */
  datatype Settings = Settings(tenant: Option<string>, bootstrap: Option<string>)

  // --- Policies ----------------------------------------------------------------------

  function NullIf(value: Option<string>, nothing: string): Option<string> {
    if value == Some(nothing) then None else value
  }

  /** SQL equality: unknown (None) when the right-hand side is NULL. */
  function SqlEquals(left: string, right: Option<string>): Option<bool> {
    match right
    case None => None
    case Some(text) => Some(left == text)
  }

  datatype Command = SelectRows | InsertRows | UpdateRows | DeleteRows

  datatype Policy = TenantIsolation | ScimBootstrap

  function Policies(name: TableName): seq<Policy> {
    match name
    case IdpDirectories => [TenantIsolation, ScimBootstrap]
    case AdminAuditLog => [TenantIsolation]
  }

  predicate AppliesTo(p: Policy, cmd: Command) {
    p.TenantIsolation? || cmd.SelectRows?
  }

  /** A row passes a policy only when its condition is true, not when it is unknown. */
  predicate Passes(p: Policy, s: Settings, row: Row) {
    match p
    case TenantIsolation => SqlEquals(row.tenant, NullIf(s.tenant, "")) == Some(true)
    case ScimBootstrap => NullIf(s.tenant, "").None? && SqlEquals("on", s.bootstrap) == Some(true)
  }

  /** Policies are permissive: one that applies and passes is enough. */
  predicate Allowed(name: TableName, cmd: Command, s: Settings, row: Row) {
    exists i :: 0 <= i < |Policies(name)| && AppliesTo(Policies(name)[i], cmd) && Passes(Policies(name)[i], s, row)
  }

  // --- Statements ---------------------------------------------------------------------

  datatype Statement =
    | SetBootstrap(value: string)      // set_config('app.scim_bootstrap', value, true)
    | Select(table: TableName, where: (RowId, Row) -> bool)
    | Insert(table: TableName, id: RowId, row: Row)
    | Update(table: TableName, where: (RowId, Row) -> bool, change: Row -> Row)
    | Delete(table: TableName, where: (RowId, Row) -> bool)

  datatype Result = Rows(rows: Table) | Affected(ids: set<RowId>) | Done | Failed

  datatype Outcome = Outcome(db: Database, settings: Settings, result: Result)

  /** The rows a statement reads, or may change after reading them. */
  function Reach(table: Table, name: TableName, cmd: Command, s: Settings, where: (RowId, Row) -> bool): Table {
    map id | id in table && Allowed(name, cmd, s, table[id]) && Allowed(name, SelectRows, s, table[id])
             && where(id, table[id]) :: table[id]
  }

  function Changed(table: Table, ids: set<RowId>, change: Row -> Row): Table {
    map id | id in table :: if id in ids then change(table[id]) else table[id]
  }

  function Exec(db: Database, s: Settings, stmt: Statement): Outcome {
    match stmt
    case SetBootstrap(value) => Outcome(db, s.(bootstrap := Some(value)), Done)
    case Select(name, where) => Outcome(db, s, Rows(Reach(db.Get(name), name, SelectRows, s, where)))
    case Insert(name, id, row) =>
      if Allowed(name, InsertRows, s, row) && id !in db.Get(name) then
        Outcome(db.Set(name, db.Get(name)[id := row]), s, Affected({id}))
      else
        Outcome(db, s, Failed)
    case Update(name, where, change) =>
      var table := db.Get(name);
      var reached := Reach(table, name, UpdateRows, s, where);
      if forall id :: id in reached ==> Allowed(name, UpdateRows, s, change(reached[id])) then
        Outcome(db.Set(name, Changed(table, reached.Keys, change)), s, Affected(reached.Keys))
      else
        Outcome(db, s, Failed)
    case Delete(name, where) =>
      var reached := Reach(db.Get(name), name, DeleteRows, s, where);
      Outcome(db.Set(name, db.Get(name) - reached.Keys), s, Affected(reached.Keys))
  }

  datatype Body = Body(db: Database, settings: Settings, results: seq<Result>, failed: bool)

  /** After an error every further statement of the transaction fails. */
  function ExecAll(db: Database, s: Settings, stmts: seq<Statement>): Body
    decreases |stmts|
  {
    if stmts == [] then Body(db, s, [], false)
    else
      var first := Exec(db, s, stmts[0]);
      if first.result.Failed? then Body(db, s, seq(|stmts|, _ => Failed), true)
      else
        var rest := ExecAll(first.db, first.settings, stmts[1..]);
        rest.(results := [first.result] + rest.results)
  }

  // --- Transactions on pooled connections ------------------------------------------------

  /** `binding` is the tenant that the session was bound to when the transaction began, if any. */
  datatype Transaction = Transaction(
    connection: nat, binding: Option<Tenant>, statements: seq<Statement>, commit: bool)

  datatype World = World(db: Database, connections: map<nat, Settings>)

  function LeftOn(w: World, connection: nat): Settings {
    if connection in w.connections then w.connections[connection] else Settings(None, None)
  }

  function Begin(left: Settings, binding: Option<Tenant>): Settings {
    match binding
    case None => left
    case Some(t) => left.(tenant := Some(t))
  }

  /** The transaction has set the bootstrap setting: a statement after a failure is not carried out. */
  predicate SetsFlag(stmts: seq<Statement>, results: seq<Result>) {
    exists i :: 0 <= i < |stmts| && i < |results| && stmts[i].SetBootstrap? && !results[i].Failed?
  }

  /** A local setting ends with its transaction; once it has been set on a connection it reads back as ''. */
  function End(left: Settings, tx: Transaction, results: seq<Result>): Settings {
    Settings(
      if tx.binding.Some? then Some("") else left.tenant,
      if SetsFlag(tx.statements, results) then Some("") else left.bootstrap)
  }

  function Perform(w: World, tx: Transaction): (World, seq<Result>) {
    var left := LeftOn(w, tx.connection);
    var body := ExecAll(w.db, Begin(left, tx.binding), tx.statements);
    (World(if tx.commit && !body.failed then body.db else w.db,
           w.connections[tx.connection := End(left, tx, body.results)]),
     body.results)
  }

  function RunAll(w: World, txs: seq<Transaction>): World
    decreases |txs|
  {
    if txs == [] then w else RunAll(Perform(w, txs[0]).0, txs[1..])
  }

  /** What the sessions bound to `t` are told during a run. */
  function Observed(w: World, txs: seq<Transaction>, t: Tenant): seq<seq<Result>>
    decreases |txs|
  {
    if txs == [] then []
    else
      (if txs[0].binding == Some(t) then [Perform(w, txs[0]).1] else [])
      + Observed(Perform(w, txs[0]).0, txs[1..], t)
  }

  // --- One tenant's part of the database ----------------------------------------------------

  function OwnTable(t: Tenant, table: Table): Table {
    map id | id in table && table[id].tenant == t :: table[id]
  }

  function Own(t: Tenant, db: Database): Database {
    Database(OwnTable(t, db.directories), OwnTable(t, db.auditLog))
  }

  predicate WellOwnedTable(table: Table) {
    forall id :: id in table ==> table[id].tenant == id.generator
  }

  predicate WellOwned(db: Database) {
    WellOwnedTable(db.directories) && WellOwnedTable(db.auditLog)
  }

  predicate OwnIds(binding: Option<Tenant>, stmt: Statement) {
    stmt.Insert? && binding.Some? ==> stmt.id.generator == binding.value
  }

  predicate FreshIds(tx: Transaction) {
    forall i :: 0 <= i < |tx.statements| ==> OwnIds(tx.binding, tx.statements[i])
  }

  // --- A session bound to a tenant -----------------------------------------------------------

  /** For a bound session every policy question comes down to the tenant column. */
  lemma AllowedWhenBound(name: TableName, cmd: Command, s: Settings, row: Row, t: Tenant)
    requires s.tenant == Some(t)
    ensures Allowed(name, cmd, s, row) <==> row.tenant == t
  {
    assert Policies(name)[0] == TenantIsolation && AppliesTo(TenantIsolation, cmd);
    assert Passes(TenantIsolation, s, row) <==> row.tenant == t;
    assert !Passes(ScimBootstrap, s, row);
  }

  function Matching(table: Table, where: (RowId, Row) -> bool): Table {
    map id | id in table && where(id, table[id]) :: table[id]
  }

  /** A bound session reaches its own tenant's matching rows, all of them and no others. */
  lemma ReachWhenBound(table: Table, name: TableName, cmd: Command, s: Settings, where: (RowId, Row) -> bool, t: Tenant)
    requires s.tenant == Some(t)
    ensures Reach(table, name, cmd, s, where) == Matching(OwnTable(t, table), where)
  {
    forall id | id in table
      ensures Allowed(name, cmd, s, table[id]) <==> table[id].tenant == t
      ensures Allowed(name, SelectRows, s, table[id]) <==> table[id].tenant == t
    {
      AllowedWhenBound(name, cmd, s, table[id], t);
      AllowedWhenBound(name, SelectRows, s, table[id], t);
    }
  }

  /** A statement of a session bound to `t` acts on t's rows as if no others existed, tells the session the same, and
      leaves every other tenant's rows alone. */
  lemma ExecIsLocal(db: Database, s: Settings, s2: Settings, stmt: Statement, t: Tenant)
    requires s.tenant == s2.tenant == Some(t) && WellOwned(db) && OwnIds(Some(t), stmt)
    ensures Exec(db, s, stmt).result == Exec(Own(t, db), s2, stmt).result
    ensures Own(t, Exec(db, s, stmt).db) == Exec(Own(t, db), s2, stmt).db
    ensures forall u: Tenant :: u != t ==> Own(u, Exec(db, s, stmt).db) == Own(u, db)
    ensures WellOwned(Exec(db, s, stmt).db)
    ensures Exec(db, s, stmt).settings.tenant == Exec(Own(t, db), s2, stmt).settings.tenant == Some(t)
  {
    hide Allowed, Reach;
    match stmt
    case SetBootstrap(_) =>
    case Select(name, where) =>
      ReachIsLocal(db, name, SelectRows, s, s2, where, t);
    case Insert(name, id, row) =>
      AllowedWhenBound(name, InsertRows, s, row, t);
      AllowedWhenBound(name, InsertRows, s2, row, t);
      if row.tenant == t {
        InsertIsLocal(db.Get(name), id, row, t);
      }
    case Update(name, where, change) =>
      UpdateStatementIsLocal(db, s, s2, name, where, change, t);
    case Delete(name, where) =>
      ReachIsLocal(db, name, DeleteRows, s, s2, where, t);
      DeleteIsLocal(db.Get(name), Reach(db.Get(name), name, DeleteRows, s, where).Keys, t);
  }

  lemma ReachIsLocal(db: Database, name: TableName, cmd: Command, s: Settings, s2: Settings,
                     where: (RowId, Row) -> bool, t: Tenant)
    requires s.tenant == s2.tenant == Some(t)
    ensures Own(t, db).Get(name) == OwnTable(t, db.Get(name))
    ensures var reached := Reach(db.Get(name), name, cmd, s, where);
            && reached == Reach(Own(t, db).Get(name), name, cmd, s2, where)
            && forall id :: id in reached ==>
                 id in db.Get(name) && db.Get(name)[id].tenant == t && reached[id] == db.Get(name)[id]
  {
    hide Allowed, Reach;
    ReachWhenBound(db.Get(name), name, cmd, s, where, t);
    ReachWhenBound(OwnTable(t, db.Get(name)), name, cmd, s2, where, t);
    assert OwnTable(t, OwnTable(t, db.Get(name))) == OwnTable(t, db.Get(name));
  }

  lemma UpdateStatementIsLocal(db: Database, s: Settings, s2: Settings, name: TableName,
                               where: (RowId, Row) -> bool, change: Row -> Row, t: Tenant)
    requires s.tenant == s2.tenant == Some(t) && WellOwned(db)
    ensures var stmt := Update(name, where, change);
            && Exec(db, s, stmt).result == Exec(Own(t, db), s2, stmt).result
            && Own(t, Exec(db, s, stmt).db) == Exec(Own(t, db), s2, stmt).db
            && WellOwned(Exec(db, s, stmt).db)
            && forall u: Tenant :: u != t ==> Own(u, Exec(db, s, stmt).db) == Own(u, db)
  {
    hide Allowed, Reach;
    ReachIsLocal(db, name, UpdateRows, s, s2, where, t);
    var reached := Reach(db.Get(name), name, UpdateRows, s, where);
    forall id | id in reached
      ensures Allowed(name, UpdateRows, s, change(reached[id])) <==> change(reached[id]).tenant == t
      ensures Allowed(name, UpdateRows, s2, change(reached[id])) <==> change(reached[id]).tenant == t
    {
      AllowedWhenBound(name, UpdateRows, s, change(reached[id]), t);
      AllowedWhenBound(name, UpdateRows, s2, change(reached[id]), t);
    }
    UpdateIsLocal(db.Get(name), reached.Keys, change, t);
  }

  lemma InsertIsLocal(table: Table, id: RowId, row: Row, t: Tenant)
    requires WellOwnedTable(table) && row.tenant == t == id.generator
    ensures id in table <==> id in OwnTable(t, table)
    ensures id !in table ==>
      && OwnTable(t, table[id := row]) == OwnTable(t, table)[id := row]
      && WellOwnedTable(table[id := row])
      && forall u: Tenant :: u != t ==> OwnTable(u, table[id := row]) == OwnTable(u, table)
  {
  }

  lemma UpdateIsLocal(table: Table, ids: set<RowId>, change: Row -> Row, t: Tenant)
    requires WellOwnedTable(table)
    requires forall id :: id in ids ==> id in table && table[id].tenant == t
    ensures (forall id :: id in ids ==> change(table[id]).tenant == t) ==>
      && OwnTable(t, Changed(table, ids, change)) == Changed(OwnTable(t, table), ids, change)
      && WellOwnedTable(Changed(table, ids, change))
      && forall u: Tenant :: u != t ==> OwnTable(u, Changed(table, ids, change)) == OwnTable(u, table)
  {
  }

  lemma DeleteIsLocal(table: Table, ids: set<RowId>, t: Tenant)
    requires WellOwnedTable(table)
    requires forall id :: id in ids ==> id in table && table[id].tenant == t
    ensures OwnTable(t, table - ids) == OwnTable(t, table) - ids
    ensures WellOwnedTable(table - ids)
    ensures forall u: Tenant :: u != t ==> OwnTable(u, table - ids) == OwnTable(u, table)
  {
  }

  lemma {:induction false} BodyIsLocal(db: Database, s: Settings, s2: Settings, stmts: seq<Statement>, t: Tenant)
    requires s.tenant == s2.tenant == Some(t) && WellOwned(db)
    requires forall i :: 0 <= i < |stmts| ==> OwnIds(Some(t), stmts[i])
    ensures var all, alone := ExecAll(db, s, stmts), ExecAll(Own(t, db), s2, stmts);
            && all.results == alone.results && all.failed == alone.failed
            && Own(t, all.db) == alone.db
            && WellOwned(all.db)
    ensures forall u: Tenant :: u != t ==> Own(u, ExecAll(db, s, stmts).db) == Own(u, db)
    decreases |stmts|
  {
    if stmts != [] {
      ExecIsLocal(db, s, s2, stmts[0], t);
      var first, alone := Exec(db, s, stmts[0]), Exec(Own(t, db), s2, stmts[0]);
      BodyIsLocal(first.db, first.settings, alone.settings, stmts[1..], t);
    }
  }

  // --- A session bound to no tenant ------------------------------------------------------------

  predicate Unbound(s: Settings) {
    NullIf(s.tenant, "").None?
  }

  /** An unbound session may do nothing but read directories, and that only while its transaction has the bootstrap
      capability on. */
  lemma AllowedWhenUnbound(name: TableName, cmd: Command, s: Settings, row: Row)
    requires Unbound(s)
    ensures Allowed(name, cmd, s, row) <==> name.IdpDirectories? && cmd.SelectRows? && s.bootstrap == Some("on")
  {
    assert !Passes(TenantIsolation, s, row);
    assert Passes(ScimBootstrap, s, row) <==> s.bootstrap == Some("on");
    assert Policies(IdpDirectories)[1] == ScimBootstrap;
  }

  predicate SaysNothing(r: Result) {
    match r
    case Rows(rows) => rows == map[]
    case Affected(ids) => ids == {}
    case _ => true
  }

  /** Some statement before position `i` left the capability on. */
  predicate BootstrapOn(left: Settings, stmts: seq<Statement>, i: nat)
    requires i <= |stmts|
  {
    if i == 0 then left.bootstrap == Some("on")
    else if stmts[i - 1].SetBootstrap? then stmts[i - 1].value == "on"
    else BootstrapOn(left, stmts, i - 1)
  }

  lemma ExecUnbound(db: Database, s: Settings, stmt: Statement)
    requires Unbound(s)
    ensures Exec(db, s, stmt).db == db && Unbound(Exec(db, s, stmt).settings)
    ensures SaysNothing(Exec(db, s, stmt).result)
         || (stmt.Select? && stmt.table.IdpDirectories? && s.bootstrap == Some("on"))
    ensures stmt.Select? && stmt.table.IdpDirectories? && s.bootstrap == Some("on") ==>
      Exec(db, s, stmt).result == Rows(map id | id in db.directories && stmt.where(id, db.directories[id])
                                       :: db.directories[id])
  {
    forall name: TableName, cmd: Command, row: Row
      ensures Allowed(name, cmd, s, row) <==> name.IdpDirectories? && cmd.SelectRows? && s.bootstrap == Some("on")
    {
      AllowedWhenUnbound(name, cmd, s, row);
    }
  }

  lemma {:induction false} BodyUnbound(db: Database, s: Settings, stmts: seq<Statement>)
    requires Unbound(s)
    ensures ExecAll(db, s, stmts).db == db && |ExecAll(db, s, stmts).results| == |stmts|
    ensures forall i :: 0 <= i < |stmts| ==>
      SaysNothing(ExecAll(db, s, stmts).results[i])
      || (stmts[i].Select? && stmts[i].table.IdpDirectories? && BootstrapOn(s, stmts, i))
    decreases |stmts|
  {
    if stmts != [] {
      ExecUnbound(db, s, stmts[0]);
      var first := Exec(db, s, stmts[0]);
      BodyUnbound(first.db, first.settings, stmts[1..]);
      forall i | 0 < i < |stmts| && BootstrapOn(first.settings, stmts[1..], i - 1) ensures BootstrapOn(s, stmts, i) {
        BootstrapShift(s, stmts, i);
      }
    }
  }

  lemma {:induction false} BootstrapShift(s: Settings, stmts: seq<Statement>, i: nat)
    requires 0 < i <= |stmts|
    ensures BootstrapOn(if stmts[0].SetBootstrap? then s.(bootstrap := Some(stmts[0].value)) else s, stmts[1..], i - 1)
       <==> BootstrapOn(s, stmts, i)
  {
    if i > 1 {
      BootstrapShift(s, stmts, i - 1);
      assert stmts[1..][i - 2] == stmts[i - 1];
    }
  }

  // --- Whole runs ---------------------------------------------------------------------------------

  /** No connection waiting in the pool carries a tenant or the bootstrap capability. */
  predicate CleanPool(w: World) {
    forall c :: c in w.connections ==> Unbound(w.connections[c]) && w.connections[c].bootstrap != Some("on")
  }

  /** Neither a binding nor the capability outlives its transaction. */
  lemma {:induction false} PoolStaysClean(w: World, txs: seq<Transaction>)
    requires CleanPool(w)
    ensures CleanPool(RunAll(w, txs))
    decreases |txs|
  {
    if txs != [] {
      PoolStaysClean(Perform(w, txs[0]).0, txs[1..]);
    }
  }

  /** A transaction of an unbound session changes no row, and sees none except the directories it selects after it has
      itself switched the capability on. */
  lemma UnboundSeesAndWritesNothing(w: World, tx: Transaction)
    requires CleanPool(w) && tx.binding.None?
    ensures Perform(w, tx).0.db == w.db && |Perform(w, tx).1| == |tx.statements|
    ensures forall i :: 0 <= i < |tx.statements| ==>
      SaysNothing(Perform(w, tx).1[i])
      || (tx.statements[i].Select? && tx.statements[i].table.IdpDirectories?
          && exists j :: 0 <= j < i && tx.statements[j] == SetBootstrap("on"))
  {
    var left := LeftOn(w, tx.connection);
    BodyUnbound(w.db, left, tx.statements);
    forall i | 0 <= i < |tx.statements| && BootstrapOn(left, tx.statements, i)
      ensures exists j :: 0 <= j < i && tx.statements[j] == SetBootstrap("on")
    {
      BootstrapHasCause(left, tx.statements, i);
    }
  }

  lemma {:induction false} BootstrapHasCause(left: Settings, stmts: seq<Statement>, i: nat)
    requires i <= |stmts| && left.bootstrap != Some("on") && BootstrapOn(left, stmts, i)
    ensures exists j :: 0 <= j < i && stmts[j] == SetBootstrap("on")
  {
    if stmts[i - 1].SetBootstrap? {
      assert stmts[i - 1] == SetBootstrap("on");
    } else {
      BootstrapHasCause(left, stmts, i - 1);
    }
  }

  lemma PerformForTenant(w: World, alone: World, tx: Transaction, t: Tenant)
    requires CleanPool(w) && WellOwned(w.db) && FreshIds(tx)
    requires alone.db == Own(t, w.db)
    ensures WellOwned(Perform(w, tx).0.db) && CleanPool(Perform(w, tx).0)
    ensures tx.binding != Some(t) ==> Own(t, Perform(w, tx).0.db) == alone.db
    ensures tx.binding == Some(t) ==>
      Perform(w, tx).1 == Perform(alone, tx).1 && Own(t, Perform(w, tx).0.db) == Perform(alone, tx).0.db
  {
    var left := LeftOn(w, tx.connection);
    match tx.binding
    case None => BodyUnbound(w.db, left, tx.statements);
    case Some(u) =>
      BodyIsLocal(w.db, Begin(left, tx.binding), Begin(LeftOn(alone, tx.connection), tx.binding), tx.statements, u);
  }

  function Purge(txs: seq<Transaction>, t: Tenant): seq<Transaction> {
    if txs == [] then []
    else (if txs[0].binding == Some(t) then [txs[0]] else []) + Purge(txs[1..], t)
  }

  /** Non-interference. Whatever other tenants' and unbound sessions do, tenant t's rows end up the same, and t's
      sessions are told the same, as when t's transactions run alone on t's own rows. */
  lemma {:induction false} NonInterference(w: World, alone: World, txs: seq<Transaction>, t: Tenant)
    requires CleanPool(w) && WellOwned(w.db) && alone.db == Own(t, w.db)
    requires forall i :: 0 <= i < |txs| ==> FreshIds(txs[i])
    ensures Own(t, RunAll(w, txs).db) == RunAll(alone, Purge(txs, t)).db
    ensures Observed(w, txs, t) == Observed(alone, Purge(txs, t), t)
    decreases |txs|
  {
    if txs != [] {
      var tx, rest := txs[0], txs[1..];
      PerformForTenant(w, alone, tx, t);
      var next := if tx.binding == Some(t) then Perform(alone, tx).0 else alone;
      NonInterference(Perform(w, tx).0, next, rest, t);
      if tx.binding == Some(t) {
        assert Purge(txs, t)[1..] == Purge(rest, t);
      } else {
        assert Purge(txs, t) == Purge(rest, t);
      }
    }
  }
}
