/** Row-level security when transactions overlap. Each statement runs at once on what is committed by then and on what
    its own transaction has written (READ COMMITTED); other transactions see its writes only after the commit. A
    statement that would write a row which another open transaction has written waits. */
module RowSecurityInterleaved {
  import opened Options
  import opened RowSecurity

  // --- Uncommitted writes ----------------------------------------------------------------

  /** The rows a transaction has written to one table; None is a deleted row. */
  type Changes = map<RowId, Option<Row>>

  datatype Pending = Pending(directories: Changes, auditLog: Changes)
  {
    function Get(name: TableName): Changes {
      match name
      case IdpDirectories => directories
      case AdminAuditLog => auditLog
    }

    function Set(name: TableName, changes: Changes): Pending {
      match name
      case IdpDirectories => this.(directories := changes)
      case AdminAuditLog => this.(auditLog := changes)
    }
  }

  const NOTHING := Pending(map[], map[])

  function Overlay(table: Table, changes: Changes): Table {
    map id | id in table.Keys + changes.Keys && (id in changes ==> changes[id].Some?)
      :: if id in changes then changes[id].value else table[id]
  }

  /** What a transaction with these writes sees, and what its commit leaves. */
  function View(db: Database, p: Pending): Database {
    Database(Overlay(db.directories, p.directories), Overlay(db.auditLog, p.auditLog))
  }

  /** Records how the rows `ids` are after a statement. */
  function Note(changes: Changes, ids: set<RowId>, after: Table): Changes {
    map id | id in changes.Keys + ids
      :: if id in ids then (if id in after then Some(after[id]) else None) else changes[id]
  }

  // --- The server ------------------------------------------------------------------------

  /** `flagged` says that the transaction has set the bootstrap flag. */
  datatype Open = Open(binding: Option<Tenant>, settings: Settings, pending: Pending, flagged: bool, failed: bool)

  datatype Server = Server(db: Database, connections: map<nat, Settings>, open: map<nat, Open>)

  datatype Event =
    | Begins(connection: nat, binding: Option<Tenant>)
    | Executes(connection: nat, statement: Statement)
    | Commits(connection: nat)
    | RollsBack(connection: nat)

  datatype Reply = Told(result: Result) | Waits | Ended(committed: bool) | Ignored

  function Idle(w: Server, c: nat): Settings {
    if c in w.connections then w.connections[c] else Settings(None, None)
  }

  /** Another open transaction has written one of these rows. */
  predicate Locked(w: Server, c: nat, name: TableName, ids: set<RowId>) {
    exists other :: other in w.open && other != c && w.open[other].pending.Get(name).Keys * ids != {}
  }

  /** The transaction after a statement with outcome `o`. */
  function After(tx: Open, stmt: Statement, o: Outcome): Open {
    match o.result
    case Failed => tx.(failed := true)
    case Affected(ids) =>
      if stmt.SetBootstrap? then tx
      else
        tx.(pending := tx.pending.Set(stmt.table, Note(tx.pending.Get(stmt.table), ids, o.db.Get(stmt.table))))
    case _ => tx.(settings := o.settings, flagged := tx.flagged || stmt.SetBootstrap?)
  }

  predicate MustWait(w: Server, c: nat, stmt: Statement, result: Result) {
    result.Affected? && !stmt.SetBootstrap? && Locked(w, c, stmt.table, result.ids)
  }

  function OutcomeOf(w: Server, c: nat, stmt: Statement): Outcome
    requires c in w.open
  {
    Exec(View(w.db, w.open[c].pending), w.open[c].settings, stmt)
  }

  function Execute(w: Server, c: nat, stmt: Statement): (Server, Reply)
    requires c in w.open
  {
    var (tx, o) := (w.open[c], OutcomeOf(w, c, stmt));
    if tx.failed then (w, Told(Failed))
    else if MustWait(w, c, stmt, o.result) then (w, Waits)
    else (w.(open := w.open[c := After(tx, stmt, o)]), Told(o.result))
  }

  /** The end of a transaction: its local settings are gone, and read back as '' where they were set. */
  function Close(w: Server, c: nat, db: Database): Server
    requires c in w.open
  {
    var (tx, left) := (w.open[c], Idle(w, c));
    Server(db,
           w.connections[c := Settings(if tx.binding.Some? then Some("") else left.tenant,
                                       if tx.flagged then Some("") else left.bootstrap)],
           w.open - {c})
  }

  function Step(w: Server, e: Event): (Server, Reply) {
    match e
    case Begins(c, binding) =>
      if c in w.open then (w, Ignored)
      else (w.(open := w.open[c := Open(binding, Begin(Idle(w, c), binding), NOTHING, false, false)]), Told(Done))
    case Executes(c, stmt) => if c !in w.open then (w, Ignored) else Execute(w, c, stmt)
    case Commits(c) =>
      if c !in w.open then (w, Ignored)
      else if w.open[c].failed then (Close(w, c, w.db), Ended(false))
      else (Close(w, c, View(w.db, w.open[c].pending)), Ended(true))
    case RollsBack(c) => if c !in w.open then (w, Ignored) else (Close(w, c, w.db), Ended(false))
  }

  function Run(w: Server, es: seq<Event>): Server
    decreases |es|
  {
    if es == [] then w else Run(Step(w, es[0]).0, es[1..])
  }

  // --- One tenant's part -----------------------------------------------------------------

  /** A step of a session bound to `t`. */
  predicate Concerns(t: Tenant, w: Server, e: Event) {
    if e.connection in w.open then w.open[e.connection].binding == Some(t) else e == Begins(e.connection, Some(t))
  }

  function Purge(t: Tenant, w: Server, es: seq<Event>): seq<Event>
    decreases |es|
  {
    if es == [] then []
    else (if Concerns(t, w, es[0]) then [es[0]] else []) + Purge(t, Step(w, es[0]).0, es[1..])
  }

  /** Everything that sessions bound to `t` are told, waiting included. */
  function Observed(t: Tenant, w: Server, es: seq<Event>): seq<Reply>
    decreases |es|
  {
    if es == [] then []
    else (if Concerns(t, w, es[0]) then [Step(w, es[0]).1] else []) + Observed(t, Step(w, es[0]).0, es[1..])
  }

  /** Ids that a bound session generates are its own tenant's. */
  predicate FreshStep(w: Server, e: Event) {
    e.Executes? && e.connection in w.open ==> OwnIds(w.open[e.connection].binding, e.statement)
  }

  predicate FreshRun(w: Server, es: seq<Event>)
    decreases |es|
  {
    es == [] || (FreshStep(w, es[0]) && FreshRun(Step(w, es[0]).0, es[1..]))
  }

  // --- Invariant -------------------------------------------------------------------------

  predicate OwnChanges(changes: Changes, t: Tenant) {
    forall id :: id in changes ==> id.generator == t && (changes[id].Some? ==> changes[id].value.tenant == t)
  }

  predicate OwnPending(p: Pending, t: Tenant) {
    OwnChanges(p.directories, t) && OwnChanges(p.auditLog, t)
  }

  /** A bound session has written rows of its tenant only, an unbound one none; the flag is on only where this very
      transaction has set it. */
  predicate OpenOk(tx: Open) {
    && (tx.settings.bootstrap == Some("on") ==> tx.flagged)
    && match tx.binding
       case Some(t) => tx.settings.tenant == Some(t) && OwnPending(tx.pending, t)
       case None => Unbound(tx.settings) && tx.pending == NOTHING
  }

  predicate Good(w: Server) {
    && WellOwned(w.db)
    && (forall c :: c in w.connections ==> Unbound(w.connections[c]) && w.connections[c].bootstrap != Some("on"))
    && forall c :: c in w.open ==> OpenOk(w.open[c])
  }

  lemma ViewWellOwned(db: Database, p: Pending, t: Tenant)
    requires WellOwned(db) && OwnPending(p, t)
    ensures WellOwned(View(db, p))
  {
  }

  /** A tenant's own writes show in its own part, and nowhere else. */
  lemma OwnOfView(db: Database, p: Pending, t: Tenant, u: Tenant)
    requires WellOwned(db) && OwnPending(p, u)
    ensures Own(t, View(db, p)) == if t == u then View(Own(t, db), p) else Own(t, db)
  {
    OwnOfOverlay(db.directories, p.directories, t, u);
    OwnOfOverlay(db.auditLog, p.auditLog, t, u);
  }

  lemma OwnOfOverlay(table: Table, changes: Changes, t: Tenant, u: Tenant)
    requires WellOwnedTable(table) && OwnChanges(changes, u)
    ensures OwnTable(t, Overlay(table, changes))
         == if t == u then Overlay(OwnTable(t, table), changes) else OwnTable(t, table)
  {
  }

  lemma ViewOfNothing(db: Database)
    ensures View(db, NOTHING) == db
  {
    assert Overlay(db.directories, map[]) == db.directories && Overlay(db.auditLog, map[]) == db.auditLog;
  }

  /** A bound session's statement writes rows of its tenant only. */
  lemma WritesOwn(db: Database, s: Settings, stmt: Statement, t: Tenant)
    requires s.tenant == Some(t) && WellOwned(db) && OwnIds(Some(t), stmt)
    requires Exec(db, s, stmt).result.Affected?
    ensures !stmt.SetBootstrap? && WellOwned(Exec(db, s, stmt).db)
    ensures forall id :: id in Exec(db, s, stmt).result.ids ==> id.generator == t
  {
    hide Allowed, Reach;
    ExecIsLocal(db, s, s, stmt, t);
    match stmt
    case Insert(_, _, _) =>
    case Update(name, where, _) => ReachIsLocal(db, name, UpdateRows, s, s, where, t);
    case Delete(name, where) => ReachIsLocal(db, name, DeleteRows, s, s, where, t);
    case _ =>
  }

  lemma NoteIsOwn(changes: Changes, ids: set<RowId>, after: Table, t: Tenant)
    requires OwnChanges(changes, t) && WellOwnedTable(after) && forall id :: id in ids ==> id.generator == t
    ensures OwnChanges(Note(changes, ids, after), t)
    ensures Note(changes, ids, OwnTable(t, after)) == Note(changes, ids, after)
  {
  }

  /** The writes of a statement stay its own tenant's. */
  lemma AfterIsOk(w: Server, c: nat, stmt: Statement)
    requires Good(w) && c in w.open && OwnIds(w.open[c].binding, stmt)
    ensures OpenOk(After(w.open[c], stmt, OutcomeOf(w, c, stmt)))
    ensures After(w.open[c], stmt, OutcomeOf(w, c, stmt)).binding == w.open[c].binding
  {
    hide OutcomeOf, Note, WellOwned, OwnPending;
    assert OpenOk(w.open[c]);
    FlagNeedsStatement(w, c, stmt);
    match w.open[c].binding
    case None => UnboundWritesNothing(w, c, stmt);
    case Some(t) => BoundWritesOwn(w, c, stmt, t);
  }

  lemma BoundWritesOwn(w: Server, c: nat, stmt: Statement, t: Tenant)
    requires Good(w) && c in w.open && w.open[c].binding == Some(t) && OwnIds(Some(t), stmt)
    ensures OwnPending(After(w.open[c], stmt, OutcomeOf(w, c, stmt)).pending, t)
  {
    hide Exec, Note, View;
    var (tx, o) := (w.open[c], OutcomeOf(w, c, stmt));
    assert OpenOk(tx);
    if o.result.Affected? {
      ViewWellOwned(w.db, tx.pending, t);
      WritesOwn(View(w.db, tx.pending), tx.settings, stmt, t);
      NoteIsOwn(tx.pending.Get(stmt.table), o.result.ids, o.db.Get(stmt.table), t);
    }
  }

  lemma FlagNeedsStatement(w: Server, c: nat, stmt: Statement)
    requires c in w.open
    ensures OutcomeOf(w, c, stmt).settings.bootstrap == w.open[c].settings.bootstrap || stmt.SetBootstrap?
    ensures OutcomeOf(w, c, stmt).settings.tenant == w.open[c].settings.tenant
    ensures stmt.SetBootstrap? ==> OutcomeOf(w, c, stmt).result == Done
  {
    hide Reach, Allowed;
  }

  lemma ExecuteKeepsOk(w: Server, c: nat, stmt: Statement)
    requires Good(w) && c in w.open && OwnIds(w.open[c].binding, stmt)
    ensures var t := Execute(w, c, stmt).0;
            && c in t.open && t == w.(open := w.open[c := t.open[c]])
            && t.open[c].binding == w.open[c].binding && OpenOk(t.open[c])
  {
    hide After, OutcomeOf, MustWait, OpenOk, WellOwned;
    AfterIsOk(w, c, stmt);
    assert OpenOk(w.open[c]);
    assert w.open[c := w.open[c]] == w.open;
  }

  lemma UnboundWritesNothing(w: Server, c: nat, stmt: Statement)
    requires Good(w) && c in w.open && w.open[c].binding.None?
    ensures OutcomeOf(w, c, stmt).db == w.db
    ensures OutcomeOf(w, c, stmt).result.Affected? ==> OutcomeOf(w, c, stmt).result.ids == {}
    ensures After(w.open[c], stmt, OutcomeOf(w, c, stmt)).pending == NOTHING
  {
    hide Allowed, Reach, Note, View;
    assert OpenOk(w.open[c]);
    ViewOfNothing(w.db);
    ExecUnbound(w.db, w.open[c].settings, stmt);
    NoteNothing(w.db);
  }

  lemma NoteNothing(db: Database)
    ensures Note(map[], {}, db.directories) == map[] && Note(map[], {}, db.auditLog) == map[]
  {
  }

  lemma StepKeepsGood(w: Server, e: Event)
    requires Good(w) && FreshStep(w, e)
    ensures Good(Step(w, e).0)
  {
    hide Execute, View;
    match e
    case Executes(c, stmt) =>
      if c in w.open { ExecuteKeepsOk(w, c, stmt); }
    case Commits(c) =>
      if c in w.open {
        assert OpenOk(w.open[c]);
        match w.open[c].binding
        case Some(t) => ViewWellOwned(w.db, w.open[c].pending, t);
        case None => ViewOfNothing(w.db);
      }
    case _ =>
  }

  // --- Non-interference --------------------------------------------------------------------

  predicate Alike(one: Open, other: Open, t: Tenant) {
    && one.binding == other.binding == Some(t) && one.pending == other.pending && one.failed == other.failed
    && one.settings.tenant == other.settings.tenant == Some(t)
  }

  /** `alone` is what `w` looks like when only tenant t's sessions and rows exist. */
  ghost predicate Mirrors(w: Server, alone: Server, t: Tenant) {
    && alone.db == Own(t, w.db)
    && (forall c :: c in alone.open <==> c in w.open && w.open[c].binding == Some(t))
    && (forall c :: c in alone.open ==> Alike(w.open[c], alone.open[c], t))
  }

  lemma OthersAreInvisible(w: Server, alone: Server, e: Event, t: Tenant)
    requires Good(w) && Mirrors(w, alone, t) && FreshStep(w, e) && !Concerns(t, w, e)
    ensures Mirrors(Step(w, e).0, alone, t)
  {
    hide Execute, View, Own, WellOwned, Alike;
    var c := e.connection;
    if c in w.open {
      match e
      case Executes(_, stmt) => ExecuteKeepsOk(w, c, stmt);
      case Commits(_) =>
        CommitUnseen(w, c, t);
        ClosesUnseen(w, alone, c, t, View(w.db, w.open[c].pending));
        ClosesUnseen(w, alone, c, t, w.db);
      case RollsBack(_) => ClosesUnseen(w, alone, c, t, w.db);
      case Begins(_, _) =>
    }
  }

  /** What another tenant's session commits is none of t's rows. */
  lemma CommitUnseen(w: Server, c: nat, t: Tenant)
    requires Good(w) && c in w.open && w.open[c].binding != Some(t)
    ensures Own(t, View(w.db, w.open[c].pending)) == Own(t, w.db)
  {
    hide View, Own;
    assert OpenOk(w.open[c]);
    match w.open[c].binding
    case Some(u) => OwnOfView(w.db, w.open[c].pending, t, u);
    case None => ViewOfNothing(w.db);
  }

  lemma ClosesUnseen(w: Server, alone: Server, c: nat, t: Tenant, db: Database)
    requires Mirrors(w, alone, t) && c in w.open && w.open[c].binding != Some(t) && Own(t, db) == Own(t, w.db)
    ensures Mirrors(Close(w, c, db), alone, t)
  {
    hide Own, Alike;
  }

  /** Locks of other tenants never stand in the way. */
  lemma LockedAlike(w: Server, alone: Server, c: nat, name: TableName, ids: set<RowId>, t: Tenant)
    requires Good(w) && Mirrors(w, alone, t) && forall id :: id in ids ==> id.generator == t
    ensures Locked(w, c, name, ids) == Locked(alone, c, name, ids)
  {
    hide Own;
    forall other | other in w.open && w.open[other].binding != Some(t)
      ensures w.open[other].pending.Get(name).Keys * ids == {}
    {
      assert OpenOk(w.open[other]);
    }
    forall other | other in alone.open ensures other in w.open && alone.open[other].pending == w.open[other].pending {
      assert Alike(w.open[other], alone.open[other], t);
    }
  }

  /** A statement of a tenant's session has the same result and the same effect on the tenant's rows when the tenant is
      alone. */
  lemma OutcomeAlike(w: Server, alone: Server, c: nat, stmt: Statement, t: Tenant)
    requires Good(w) && Mirrors(w, alone, t) && c in alone.open && OwnIds(Some(t), stmt)
    ensures var (o, p) := (OutcomeOf(w, c, stmt), OutcomeOf(alone, c, stmt));
            && o.result == p.result && p.db == Own(t, o.db)
            && o.settings.tenant == p.settings.tenant == Some(t) && WellOwned(o.db)
            && (o.result.Affected? ==> !stmt.SetBootstrap? && forall id :: id in o.result.ids ==> id.generator == t)
  {
    hide Exec, Own, View, WellOwned;
    var (tx, mine) := (w.open[c], alone.open[c]);
    assert Alike(tx, mine, t) && OpenOk(tx);
    OwnOfView(w.db, tx.pending, t, t);
    ViewWellOwned(w.db, tx.pending, t);
    ExecIsLocal(View(w.db, tx.pending), tx.settings, mine.settings, stmt, t);
    if OutcomeOf(w, c, stmt).result.Affected? {
      WritesOwn(View(w.db, tx.pending), tx.settings, stmt, t);
    }
  }

  lemma AfterAlike(tx: Open, mine: Open, stmt: Statement, o: Outcome, p: Outcome, t: Tenant)
    requires Alike(tx, mine, t) && OwnPending(tx.pending, t)
    requires o.result == p.result && p.db == Own(t, o.db) && WellOwned(o.db)
    requires o.settings.tenant == p.settings.tenant == Some(t)
    requires o.result.Affected? ==> forall id :: id in o.result.ids ==> id.generator == t
    ensures Alike(After(tx, stmt, o), After(mine, stmt, p), t)
  {
    hide Note, OwnTable;
    if o.result.Affected? && !stmt.SetBootstrap? {
      NoteIsOwn(tx.pending.Get(stmt.table), o.result.ids, o.db.Get(stmt.table), t);
    }
  }

  lemma ExecuteAlike(w: Server, alone: Server, c: nat, stmt: Statement, t: Tenant)
    requires Good(w) && Mirrors(w, alone, t) && c in alone.open && OwnIds(Some(t), stmt)
    ensures Execute(w, c, stmt).1 == Execute(alone, c, stmt).1
    ensures Mirrors(Execute(w, c, stmt).0, Execute(alone, c, stmt).0, t)
  {
    hide OutcomeOf, After, Own, OpenOk, WellOwned, Locked, Alike;
    var (tx, mine) := (w.open[c], alone.open[c]);
    var (o, p) := (OutcomeOf(w, c, stmt), OutcomeOf(alone, c, stmt));
    OutcomeAlike(w, alone, c, stmt, t);
    if o.result.Affected? { LockedAlike(w, alone, c, stmt.table, o.result.ids, t); }
    OwnPendingOf(w, alone, c, t);
    AfterAlike(tx, mine, stmt, o, p, t);
    AlikeParts(tx, mine, t);
    AlikeParts(After(tx, stmt, o), After(mine, stmt, p), t);
  }

  lemma AlikeParts(one: Open, other: Open, t: Tenant)
    requires Alike(one, other, t)
    ensures one.binding == other.binding == Some(t) && one.failed == other.failed
  {
  }

  lemma OwnPendingOf(w: Server, alone: Server, c: nat, t: Tenant)
    requires Good(w) && Mirrors(w, alone, t) && c in alone.open
    ensures Alike(w.open[c], alone.open[c], t) && OwnPending(w.open[c].pending, t)
  {
    assert OpenOk(w.open[c]);
  }

  lemma TenantIsAlone(w: Server, alone: Server, e: Event, t: Tenant)
    requires Good(w) && Mirrors(w, alone, t) && FreshStep(w, e) && Concerns(t, w, e)
    ensures Concerns(t, alone, e) && Step(w, e).1 == Step(alone, e).1
    ensures Mirrors(Step(w, e).0, Step(alone, e).0, t)
  {
    hide Execute, View, Own, OpenOk, WellOwned;
    var c := e.connection;
    if c in w.open {
      OwnPendingOf(w, alone, c, t);
      match e
      case Executes(_, stmt) => ExecuteAlike(w, alone, c, stmt, t);
      case Commits(_) =>
        OwnOfView(w.db, w.open[c].pending, t, t);
        ClosesAlike(w, alone, c, t, View(w.db, w.open[c].pending), View(alone.db, w.open[c].pending));
        ClosesAlike(w, alone, c, t, w.db, alone.db);
      case RollsBack(_) => ClosesAlike(w, alone, c, t, w.db, alone.db);
      case Begins(_, _) =>
    }
  }

  lemma ClosesAlike(w: Server, alone: Server, c: nat, t: Tenant, db: Database, mine: Database)
    requires Mirrors(w, alone, t) && c in alone.open && mine == Own(t, db)
    ensures Mirrors(Close(w, c, db), Close(alone, c, mine), t)
  {
    hide Own, Alike;
  }

  /** Non-interference for overlapping transactions. In every interleaving of statements, whatever other tenants' and
      unbound sessions do, tenant t's committed rows end up the same, and t's sessions are told the same, made to wait
      at the same points, as when they run alone on t's own rows. */
  lemma {:induction false} InterleavedNonInterference(w: Server, alone: Server, es: seq<Event>, t: Tenant)
    requires Good(w) && Mirrors(w, alone, t) && FreshRun(w, es)
    ensures Own(t, Run(w, es).db) == Run(alone, Purge(t, w, es)).db
    ensures Observed(t, w, es) == Observed(t, alone, Purge(t, w, es))
    decreases |es|
  {
    hide Step, Good, Own;
    if es == [] {
      assert Mirrors(w, alone, t);
    } else {
      var (e, rest) := (es[0], Purge(t, Step(w, es[0]).0, es[1..]));
      StepKeepsGood(w, e);
      if Concerns(t, w, e) {
        TenantIsAlone(w, alone, e, t);
        InterleavedNonInterference(Step(w, e).0, Step(alone, e).0, es[1..], t);
        assert ([e] + rest)[1..] == rest;
      } else {
        OthersAreInvisible(w, alone, e, t);
        InterleavedNonInterference(Step(w, e).0, alone, es[1..], t);
        assert Purge(t, w, es) == rest;
      }
    }
  }

  /** What is observed is what the steps of t's sessions are answered, each after all the steps before it. */
  lemma {:induction false} ObservedInOrder(w: Server, es: seq<Event>, e: Event, t: Tenant)
    ensures Run(w, es + [e]) == Step(Run(w, es), e).0
    ensures Observed(t, w, es + [e])
         == Observed(t, w, es) + if Concerns(t, Run(w, es), e) then [Step(Run(w, es), e).1] else []
    ensures Purge(t, w, es + [e]) == Purge(t, w, es) + if Concerns(t, Run(w, es), e) then [e] else []
    decreases |es|
  {
    hide Step, Concerns;
    if es == [] {
      assert [] + [e] == [e] && [e][1..] == [];
    } else {
      assert (es + [e])[1..] == es[1..] + [e];
      ObservedInOrder(Step(w, es[0]).0, es[1..], e, t);
    }
  }

  lemma {:induction false} RunKeepsGood(w: Server, es: seq<Event>)
    requires Good(w) && FreshRun(w, es)
    ensures Good(Run(w, es))
    decreases |es|
  {
    hide Step, Good;
    if es != [] {
      StepKeepsGood(w, es[0]);
      RunKeepsGood(Step(w, es[0]).0, es[1..]);
    }
  }

  /** The same for sessions bound to no tenant, after any run: they write nothing, never wait, and are told nothing,
      except the directories they select while a flag set in this very transaction is on. */
  lemma UnboundSessionIsHarmless(start: Server, es: seq<Event>, c: nat, stmt: Statement)
    requires Good(start) && FreshRun(start, es)
    requires c in Run(start, es).open && Run(start, es).open[c].binding.None? && !Run(start, es).open[c].failed
    ensures var w := Run(start, es);
            var (t, reply) := Execute(w, c, stmt);
            && t.db == Step(w, Commits(c)).0.db == w.db && t.open[c].pending == NOTHING && reply.Told?
            && (SaysNothing(reply.result)
                || (stmt.Select? && stmt.table.IdpDirectories?
                    && w.open[c].flagged && w.open[c].settings.bootstrap == Some("on")))
  {
    hide Step, Run, Exec, Note, View, SaysNothing;
    RunKeepsGood(start, es);
    var w := Run(start, es);
    assert OpenOk(w.open[c]);
    ViewOfNothing(w.db);
    ExecUnbound(w.db, w.open[c].settings, stmt);
    UnboundWritesNothing(w, c, stmt);
    assert Step(w, Commits(c)).0.db == w.db by { CommitLeaves(w, c); }
  }

  lemma CommitLeaves(w: Server, c: nat)
    requires c in w.open && !w.open[c].failed
    ensures Step(w, Commits(c)).0.db == View(w.db, w.open[c].pending)
  {
  }

  // --- One transaction at a time ---------------------------------------------------------------

  /** A statement changes the rows it reports, in its own table. */
  lemma ExecChanges(db: Database, s: Settings, stmt: Statement)
    ensures var o := Exec(db, s, stmt);
            && (!o.result.Affected? ==> o.db == db)
            && (o.result.Affected? ==>
                  && !stmt.SetBootstrap? && o.db == db.Set(stmt.table, o.db.Get(stmt.table))
                  && o.db.Get(stmt.table) - o.result.ids == db.Get(stmt.table) - o.result.ids)
  {
    hide Allowed, Reach;
  }

  /** A transaction sees its own writes: after a statement its view is what the statement left. */
  lemma OwnWritesShow(w: Server, c: nat, stmt: Statement)
    requires c in w.open
    ensures View(w.db, After(w.open[c], stmt, OutcomeOf(w, c, stmt)).pending) == OutcomeOf(w, c, stmt).db
  {
    hide Exec, Overlay, Note;
    var (p, o) := (w.open[c].pending, OutcomeOf(w, c, stmt));
    ExecChanges(View(w.db, p), w.open[c].settings, stmt);
    if o.result.Affected? {
      NotedShows(w.db.Get(stmt.table), p.Get(stmt.table), o.result.ids, o.db.Get(stmt.table));
    }
  }

  lemma NotedShows(table: Table, changes: Changes, ids: set<RowId>, after: Table)
    requires after - ids == Overlay(table, changes) - ids
    ensures Overlay(table, Note(changes, ids, after)) == after
  {
    var noted := Overlay(table, Note(changes, ids, after));
    forall id | id !in ids ensures id in after <==> id in Overlay(table, changes) {
      assert id in after <==> id in after - ids;
      assert id in Overlay(table, changes) <==> id in Overlay(table, changes) - ids;
    }
    forall id | id in after && id !in ids ensures after[id] == Overlay(table, changes)[id] {
      assert after[id] == (after - ids)[id] == (Overlay(table, changes) - ids)[id];
    }
  }

  function ToldAll(results: seq<Result>): seq<Reply> {
    seq(|results|, i requires 0 <= i < |results| => Told(results[i]))
  }

  function Statements(c: nat, stmts: seq<Statement>): seq<Event> {
    seq(|stmts|, i requires 0 <= i < |stmts| => Executes(c, stmts[i]))
  }

  function Replies(w: Server, es: seq<Event>): seq<Reply>
    decreases |es|
  {
    if es == [] then [] else [Step(w, es[0]).1] + Replies(Step(w, es[0]).0, es[1..])
  }

  predicate OnlyOpen(w: Server, c: nat) {
    c in w.open && forall other :: other in w.open ==> other == c
  }

  /** The statements of a transaction that runs without interruption do what `ExecAll` says. */
  lemma {:induction false} StatementsInARow(w: Server, c: nat, stmts: seq<Statement>)
    requires OnlyOpen(w, c)
    ensures var (t, tx) := (Run(w, Statements(c, stmts)), w.open[c]);
            && OnlyOpen(t, c) && t.db == w.db && t.connections == w.connections
            && t.open[c].binding == tx.binding
            && (tx.failed ==>
                  && t.open[c].failed && t.open[c].flagged == tx.flagged
                  && Replies(w, Statements(c, stmts)) == seq(|stmts|, _ => Told(Failed)))
            && (!tx.failed ==>
                  var body := ExecAll(View(w.db, tx.pending), tx.settings, stmts);
                  && t.open[c].failed == body.failed && Replies(w, Statements(c, stmts)) == ToldAll(body.results)
                  && (t.open[c].flagged <==> tx.flagged || SetsFlag(stmts, body.results))
                  && (!body.failed ==> View(t.db, t.open[c].pending) == body.db))
    decreases |stmts|
  {
    hide Execute, View, Exec;
    if stmts != [] {
      var (first, rest) := (stmts[0], stmts[1..]);
      assert Statements(c, stmts)[1..] == Statements(c, rest);
      ExecuteUncontended(w, c, first);
      var next := Execute(w, c, first).0;
      StatementsInARow(next, c, rest);
      assert Replies(w, Statements(c, stmts)) == [Execute(w, c, first).1] + Replies(next, Statements(c, rest));
      FlagInARow(View(w.db, w.open[c].pending), w.open[c].settings, stmts);
    }
  }

  /** The flag is set by the first statement or by the others. */
  lemma FlagInARow(db: Database, s: Settings, stmts: seq<Statement>)
    requires stmts != []
    ensures var (first, body) := (Exec(db, s, stmts[0]), ExecAll(db, s, stmts));
            SetsFlag(stmts, body.results) <==>
              !first.result.Failed?
              && (stmts[0].SetBootstrap? || SetsFlag(stmts[1..], ExecAll(first.db, first.settings, stmts[1..]).results))
  {
    hide Exec, SetsFlag;
    var (first, body) := (Exec(db, s, stmts[0]), ExecAll(db, s, stmts));
    if first.result.Failed? {
      NoFlag(stmts, body.results);
    } else {
      FlagCons(stmts, first.result, ExecAll(first.db, first.settings, stmts[1..]).results);
    }
  }

  lemma NoFlag(stmts: seq<Statement>, results: seq<Result>)
    requires forall i :: 0 <= i < |results| ==> results[i].Failed?
    ensures !SetsFlag(stmts, results)
  {
  }

  lemma FlagCons(stmts: seq<Statement>, first: Result, rest: seq<Result>)
    requires stmts != []
    ensures SetsFlag(stmts, [first] + rest)
       <==> (stmts[0].SetBootstrap? && !first.Failed?) || SetsFlag(stmts[1..], rest)
  {
    var results := [first] + rest;
    forall i | 0 <= i < |stmts| - 1 && i < |rest|
      ensures stmts[1..][i] == stmts[i + 1] && rest[i] == results[i + 1]
    {
    }
    if SetsFlag(stmts[1..], rest) {
      var i :| 0 <= i < |stmts| - 1 && i < |rest| && stmts[1..][i].SetBootstrap? && !rest[i].Failed?;
      assert stmts[i + 1].SetBootstrap? && !results[i + 1].Failed?;
    }
    if i :| 0 < i < |stmts| && i < |results| && stmts[i].SetBootstrap? && !results[i].Failed? {
      assert stmts[1..][i - 1].SetBootstrap? && !rest[i - 1].Failed?;
    }
    assert results[0] == first;
  }

  lemma ExecuteUncontended(w: Server, c: nat, stmt: Statement)
    requires OnlyOpen(w, c)
    ensures var (t, reply) := Execute(w, c, stmt);
            var (tx, o) := (w.open[c], OutcomeOf(w, c, stmt));
            && OnlyOpen(t, c) && t.db == w.db && t.connections == w.connections
            && t.open[c].binding == tx.binding
            && (if tx.failed then t == w && reply == Told(Failed)
                else
                  && (t.open[c].flagged <==> tx.flagged || (stmt.SetBootstrap? && !o.result.Failed?))
                  && t.open[c].failed == o.result.Failed? && reply == Told(o.result)
                  && View(t.db, t.open[c].pending) == o.db && (!o.result.Failed? ==> t.open[c].settings == o.settings))
  {
    hide Exec, View;
    OwnWritesShow(w, c, stmt);
    OnlyBootstrapSets(View(w.db, w.open[c].pending), w.open[c].settings, stmt);
  }

  lemma OnlyBootstrapSets(db: Database, s: Settings, stmt: Statement)
    ensures Exec(db, s, stmt).result.Affected? ==> Exec(db, s, stmt).settings == s && !stmt.SetBootstrap?
  {
    hide Allowed, Reach;
  }

  lemma {:induction false} RunAppend(w: Server, a: seq<Event>, b: seq<Event>)
    ensures Run(w, a + b) == Run(Run(w, a), b)
    ensures Replies(w, a + b) == Replies(w, a) + Replies(Run(w, a), b)
    decreases |a|
  {
    hide Step;
    if a == [] {
      assert a + b == b;
    } else {
      assert (a + b)[1..] == a[1..] + b;
      RunAppend(Step(w, a[0]).0, a[1..], b);
    }
  }

  lemma RunOne(w: Server, e: Event)
    ensures Run(w, [e]) == Step(w, e).0 && Replies(w, [e]) == [Step(w, e).1]
  {
    hide Step;
    assert [e][1..] == [];
  }

  function Uninterrupted(tx: Transaction): seq<Event> {
    [Begins(tx.connection, tx.binding)] + (Statements(tx.connection, tx.statements)
      + [if tx.commit then Commits(tx.connection) else RollsBack(tx.connection)])
  }

  predicate Succeeds(w: Server, tx: Transaction) {
    tx.commit && !ExecAll(w.db, Begin(Idle(w, tx.connection), tx.binding), tx.statements).failed
  }

  /** The serial model is a special case: a transaction that starts when none is open and runs without interruption
      leaves the rows that `Perform` leaves, and its session is told the same. */
  lemma UninterruptedIsPerform(w: Server, tx: Transaction)
    requires w.open == map[]
    ensures var (after, results) := Perform(World(w.db, w.connections), tx);
            && Run(w, Uninterrupted(tx)) == Server(after.db, after.connections, map[])
            && Replies(w, Uninterrupted(tx)) == [Told(Done)] + (ToldAll(results) + [Ended(Succeeds(w, tx))])
  {
    hide Run, Replies, View, Exec, ExecAll, SetsFlag;
    var c := tx.connection;
    var (start, stmts) := (Begins(c, tx.binding), Statements(c, tx.statements));
    var finish := if tx.commit then Commits(c) else RollsBack(c);
    var w1 := Step(w, start).0;
    RunOne(w, start);
    RunAppend(w, [start], stmts + [finish]);
    RunAppend(w1, stmts, [finish]);
    StatementsInARow(w1, c, tx.statements);
    RunOne(Run(w1, stmts), finish);
    ViewOfNothing(w.db);
    assert LeftOn(World(w.db, w.connections), c) == Idle(w, c);
    var w2 := Run(w1, stmts);
    assert w2.open.Keys == {c};
    assert (w2.open - {c}).Keys == {};
    CloseOpens(w2, finish);
    assert Idle(w2, c) == Idle(w, c) && w2.open[c].binding == tx.binding;
    assert Replies(w, Uninterrupted(tx))
        == [Told(Done)] + (ToldAll(Perform(World(w.db, w.connections), tx).1) + [Step(w2, finish).1]);
  }

  lemma CloseOpens(w: Server, e: Event)
    requires (e.Commits? || e.RollsBack?) && e.connection in w.open
    ensures Step(w, e).0.open == w.open - {e.connection}
    ensures Step(w, e).0.connections == Close(w, e.connection, w.db).connections
    ensures Step(w, e).1 == Ended(e.Commits? && !w.open[e.connection].failed)
    ensures Step(w, e).0.db
         == if e.Commits? && !w.open[e.connection].failed then View(w.db, w.open[e.connection].pending) else w.db
  {
    hide View;
  }
}
