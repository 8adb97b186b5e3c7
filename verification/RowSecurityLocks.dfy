/** Overlapping transactions never overwrite each other: a row that one has written is held until that one ends. */
module RowSecurityLocks {
  import opened Options
  import opened RowSecurity
  import opened RowSecurityInterleaved

  /** The transaction on `c` has written this row. */
  predicate Holds(w: Server, c: nat, name: TableName, id: RowId) {
    c in w.open && id in w.open[c].pending.Get(name)
  }

  /** No row has been written by two open transactions. */
  ghost predicate OneWriter(w: Server) {
    forall a: nat, b: nat, name, id :: Holds(w, a, name, id) && Holds(w, b, name, id) ==> a == b
  }

  predicate Heads(stmt: Statement, name: TableName) {
    !stmt.SetBootstrap? && stmt.table == name
  }

  /** A statement that is carried out adds the rows it reports to what its transaction holds. */
  lemma ExecuteHolds(w: Server, c: nat, stmt: Statement, name: TableName, id: RowId)
    requires c in w.open
    ensures var (t, reply) := Execute(w, c, stmt);
            && t.db == w.db && t.open.Keys == w.open.Keys
            && (forall other :: other in w.open && other != c ==> t.open[other] == w.open[other])
            && (Holds(t, c, name, id) <==>
                  || Holds(w, c, name, id)
                  || (reply.Told? && reply.result.Affected? && Heads(stmt, name) && id in reply.result.ids))
  {
    hide View, Allowed, Reach;
    OnlyBootstrapSets(View(w.db, w.open[c].pending), w.open[c].settings, stmt);
  }

  predicate WouldWrite(w: Server, c: nat, stmt: Statement, name: TableName, id: RowId)
    requires c in w.open
  {
    var result := OutcomeOf(w, c, stmt).result;
    Heads(stmt, name) && result.Affected? && id in result.ids
  }

  predicate Conflicts(w: Server, c: nat, stmt: Statement, other: nat, name: TableName, id: RowId)
    requires c in w.open
  {
    other != c && Holds(w, other, name, id) && WouldWrite(w, c, stmt, name, id)
  }

  /** A statement waits if and only if it would write a row that another open transaction has written. */
  lemma WaitsExactly(w: Server, c: nat, stmt: Statement)
    requires c in w.open && !w.open[c].failed
    ensures var (t, reply) := Execute(w, c, stmt);
            && (reply.Waits? <==> exists other: nat, name, id :: Conflicts(w, c, stmt, other, name, id))
            && (reply.Waits? ==> t == w)
  {
    hide Exec, View;
    var result := OutcomeOf(w, c, stmt).result;
    if MustWait(w, c, stmt, result) {
      var other :| other in w.open && other != c && w.open[other].pending.Get(stmt.table).Keys * result.ids != {};
      var id :| id in w.open[other].pending.Get(stmt.table).Keys * result.ids;
      assert Conflicts(w, c, stmt, other, stmt.table, id);
    }
    forall other: nat, name, id | Conflicts(w, c, stmt, other, name, id) ensures MustWait(w, c, stmt, result) {
      assert id in w.open[other].pending.Get(name).Keys * result.ids;
    }
  }

  lemma StepKeepsOneWriter(w: Server, e: Event)
    requires OneWriter(w)
    ensures OneWriter(Step(w, e).0)
  {
    hide Execute, View, Exec;
    var t := Step(w, e).0;
    forall a: nat, b: nat, name, id | Holds(t, a, name, id) && Holds(t, b, name, id) ensures a == b {
      if e.Executes? && e.connection in w.open {
        ExecuteKeepsOneWriter(w, e.connection, e.statement, a, b, name, id);
      } else {
        assert Holds(w, a, name, id) && Holds(w, b, name, id);
      }
    }
  }

  lemma ExecuteKeepsOneWriter(w: Server, c: nat, stmt: Statement, a: nat, b: nat, name: TableName, id: RowId)
    requires OneWriter(w) && c in w.open
    requires Holds(Execute(w, c, stmt).0, a, name, id) && Holds(Execute(w, c, stmt).0, b, name, id)
    ensures a == b
  {
    hide Execute, View, Exec;
    ExecuteHolds(w, c, stmt, name, id);
    if a != c && Holds(w, a, name, id) { NobodyElse(w, c, stmt, a, name, id); }
    if b != c && Holds(w, b, name, id) { NobodyElse(w, c, stmt, b, name, id); }
  }

  /** What a statement has just written nobody else holds. */
  lemma NobodyElse(w: Server, c: nat, stmt: Statement, other: nat, name: TableName, id: RowId)
    requires c in w.open && other != c && Holds(w, other, name, id)
    ensures var reply := Execute(w, c, stmt).1;
            !(reply.Told? && reply.result.Affected? && Heads(stmt, name) && id in reply.result.ids)
  {
    hide Exec, View;
    if !w.open[c].failed {
      WaitsExactly(w, c, stmt);
      assert WouldWrite(w, c, stmt, name, id) ==> Conflicts(w, c, stmt, other, name, id);
    }
  }

  lemma {:induction false} RunKeepsOneWriter(w: Server, es: seq<Event>)
    requires OneWriter(w)
    ensures OneWriter(Run(w, es))
    decreases |es|
  {
    hide Step, OneWriter;
    if es != [] {
      StepKeepsOneWriter(w, es[0]);
      RunKeepsOneWriter(Step(w, es[0]).0, es[1..]);
    }
  }

  predicate SameRow(before: Table, after: Table, id: RowId) {
    (id in before <==> id in after) && (id in before ==> after[id] == before[id])
  }

  /** Nobody else can change a row that is held, by any step. */
  lemma StepKeepsHeld(w: Server, e: Event, c: nat, name: TableName, id: RowId)
    requires OneWriter(w) && Holds(w, c, name, id) && e.connection != c
    ensures var t := Step(w, e).0;
            && c in t.open && t.open[c] == w.open[c] && Holds(t, c, name, id)
            && SameRow(w.db.Get(name), t.db.Get(name), id)
  {
    hide Execute, Exec;
    if e.Executes? && e.connection in w.open {
      ExecuteHolds(w, e.connection, e.statement, name, id);
    } else if e.Commits? && e.connection in w.open {
      assert !Holds(w, e.connection, name, id);
    }
  }

  predicate Avoids(es: seq<Event>, c: nat) {
    forall i :: 0 <= i < |es| ==> es[i].connection != c
  }

  /** No update is lost: from the moment a transaction has written a row until it goes on or ends, whatever the others
      do, the committed row stays as it was, and a commit then leaves exactly what the transaction has written. */
  lemma {:induction false} HeldRowsStay(w: Server, es: seq<Event>, c: nat, name: TableName, id: RowId)
    requires OneWriter(w) && Holds(w, c, name, id) && Avoids(es, c)
    ensures var t := Run(w, es);
            && c in t.open && t.open[c] == w.open[c] && SameRow(w.db.Get(name), t.db.Get(name), id)
            && (!w.open[c].failed ==> Leaves(Step(t, Commits(c)).0.db.Get(name), id, w.open[c].pending.Get(name)[id]))
    decreases |es|
  {
    hide OneWriter;
    if es == [] {
      CommitWrites(w, c, name, id);
    } else {
      hide Step;
      StepKeepsHeld(w, es[0], c, name, id);
      StepKeepsOneWriter(w, es[0]);
      HeldRowsStay(Step(w, es[0]).0, es[1..], c, name, id);
    }
  }

  /** The table has the row as written, or not at all when it was deleted. */
  predicate Leaves(table: Table, id: RowId, written: Option<Row>) {
    match written
    case Some(row) => id in table && table[id] == row
    case None => id !in table
  }

  lemma CommitWrites(w: Server, c: nat, name: TableName, id: RowId)
    ensures Holds(w, c, name, id) && !w.open[c].failed ==>
      Leaves(Step(w, Commits(c)).0.db.Get(name), id, w.open[c].pending.Get(name)[id])
  {
  }

  /** Rows that a transaction has not written it commits as it finds them. */
  lemma CommitKeepsOthers(w: Server, c: nat, name: TableName, id: RowId)
    requires !Holds(w, c, name, id)
    ensures SameRow(w.db.Get(name), Step(w, Commits(c)).0.db.Get(name), id)
  {
  }
}
