/**
 The attribution table under interleaved transactions (migration 0014). A
 transaction's triggers see the committed rows and its own; primary key and UNIQUE
 hold across all transactions, so a conflicting insert has to wait for the other one
 to end; foreign keys are checked at the end of each statement against what is then
 visible. Between any two rows of a statement any other transaction may do anything.
 */
module LineageTransactions {
  import opened Basics
  import opened Lineage
  import opened LineageStatements
  import opened LineageChains

  /** `own` are the rows it has inserted; `busy` says that its latest statement has not ended. */
  datatype Transaction = Transaction(own: Table, busy: bool)

  datatype Database = Database(committed: Table, open: map<nat, Transaction>)

  datatype Event =
    | Begin(tx: nat)
    | InsertRow(tx: nat, refs: References, row: Attribution)
    | EndStatement(tx: nat)
    | Commit(tx: nat)
    | Rollback(tx: nat)

  const EMPTY_DATABASE := Database(map[], map[])

  function View(d: Database, tx: nat): Table
    requires tx in d.open
  {
    d.committed + d.open[tx].own
  }

  /** The primary key, across all transactions. */
  predicate IdTaken(d: Database, id: Id) {
    id in d.committed || exists tx :: tx in d.open && id in d.open[tx].own
  }

  /** UNIQUE (supersedes_id), across all transactions. */
  predicate SupersededAnywhere(d: Database, id: Id) {
    SupersededBy(d.committed, id) || exists tx :: tx in d.open && SupersededBy(d.open[tx].own, id)
  }

  /** Triggers on the transaction's own view; CHECK; constraints across all transactions. */
  predicate RowInserts(d: Database, tx: nat, refs: References, row: Attribution)
    requires tx in d.open
  {
    && EvidenceTenantMatches(refs, row)
    && PrincipalTenantMatches(refs, row)
    && RejectCycle(View(d, tx), row) == Pass
    && row.supersedes != Some(row.id)
    && !IdTaken(d, row.id)
    && (row.supersedes.Some? ==> !SupersededAnywhere(d, row.supersedes.value))
  }

  /** Foreign keys of the transaction's rows, against the rows it sees. */
  predicate OwnKeysHold(d: Database, tx: nat)
    requires tx in d.open
  {
    var own := d.open[tx].own;
    forall id :: id in own ==> own[id].supersedes.Some? ==> own[id].supersedes.value in View(d, tx)
  }

  predicate Enabled(d: Database, ev: Event) {
    match ev
    case Begin(tx) => tx !in d.open
    case InsertRow(tx, refs, row) => tx in d.open && RowInserts(d, tx, refs, row)
    case EndStatement(tx) => tx in d.open && OwnKeysHold(d, tx)
    case Commit(tx) => tx in d.open && !d.open[tx].busy
    case Rollback(tx) => tx in d.open
  }

  function After(d: Database, ev: Event): Database
    requires Enabled(d, ev)
  {
    match ev
    case Begin(tx) => d.(open := d.open[tx := Transaction(map[], false)])
    case InsertRow(tx, _, row) => d.(open := d.open[tx := Transaction(d.open[tx].own[row.id := row], true)])
    case EndStatement(tx) => d.(open := d.open[tx := d.open[tx].(busy := false)])
    case Commit(tx) => Database(View(d, tx), d.open - {tx})
    case Rollback(tx) => d.(open := d.open - {tx})
  }

  function Run(evs: seq<Event>): Option<Database> {
    if evs == [] then Some(EMPTY_DATABASE)
    else
      var d := Run(evs[..|evs| - 1]);
      if d.Some? && Enabled(d.value, evs[|evs| - 1]) then Some(After(d.value, evs[|evs| - 1])) else None
  }

  // ---------- What every run keeps ----------

  /** No id and no superseded row in common. */
  ghost predicate Disjoint(a: Table, b: Table) {
    && a.Keys !! b.Keys
    && forall x, y :: x in a && y in b && a[x].supersedes.Some? ==> a[x].supersedes != b[y].supersedes
  }

  ghost predicate TransactionSound(d: Database, tx: nat)
    requires tx in d.open
  {
    && WellLinked(View(d, tx))
    && (!d.open[tx].busy ==> OwnKeysHold(d, tx))
    && Disjoint(d.committed, d.open[tx].own)
  }

  ghost predicate Sound(d: Database) {
    && WellLinked(d.committed) && ForeignKeysHold(d.committed)
    && (forall tx :: tx in d.open ==> TransactionSound(d, tx))
    && (forall s, t :: s in d.open && t in d.open && s != t ==> Disjoint(d.open[s].own, d.open[t].own))
  }

  // ---------- Joining tables ----------

  /** A path cannot leave a table all of whose pointers resolve. */
  lemma {:induction false} PathStaysInside(c: Table, o: Table, p: seq<Id>, j: nat, k: nat)
    requires ForeignKeysHold(c) && c.Keys !! o.Keys && IsPath(c + o, p)
    requires j <= k < |p| && p[j] in c
    ensures p[k] in c
    decreases k
  {
    if j < k {
      PathStaysInside(c, o, p, j, k - 1);
      assert Points(c + o, p[k - 1], p[k]);
    }
  }

  /** A loop lies wholly inside such a table or wholly outside it. */
  lemma JoinIsAcyclic(c: Table, o: Table)
    requires Acyclic(c) && ForeignKeysHold(c) && Acyclic(o) && c.Keys !! o.Keys
    ensures Acyclic(c + o)
  {
    forall p | IsPath(c + o, p) && |p| >= 2 ensures p[0] != p[|p| - 1] {
      if p[0] in c {
        forall i | 0 <= i < |p| - 1 ensures Points(c, p[i], p[i + 1]) {
          PathStaysInside(c, o, p, 0, i);
          assert Points(c + o, p[i], p[i + 1]);
        }
        assert IsPath(c, p);
      } else if p[0] == p[|p| - 1] {
        forall i | 0 <= i < |p| - 1 ensures Points(o, p[i], p[i + 1]) {
          if p[i] in c {
            PathStaysInside(c, o, p, i, |p| - 1);
          }
          assert Points(c + o, p[i], p[i + 1]);
        }
        assert IsPath(o, p);
      }
    }
  }

  /** What a transaction sees stays well linked when another one commits. */
  lemma ViewSurvivesCommit(c: Table, mine: Table, theirs: Table)
    requires WellLinked(c + mine) && WellLinked(c + theirs) && ForeignKeysHold(c + theirs)
    requires Disjoint(c, mine) && Disjoint(c, theirs) && Disjoint(theirs, mine)
    ensures WellLinked((c + theirs) + mine) && Disjoint(c + theirs, mine)
  {
    JoinIsAcyclic(c + theirs, mine);
    var all := (c + theirs) + mine;
    forall a, b | a in all && b in all && all[a].supersedes.Some? && all[a].supersedes == all[b].supersedes ensures a == b {
      if a !in theirs && b !in theirs {
        assert all[a] == (c + mine)[a] && all[b] == (c + mine)[b];
      } else if a !in mine && b !in mine {
        assert all[a] == (c + theirs)[a] && all[b] == (c + theirs)[b];
      }
    }
    forall id | id in all ensures all[id].id == id {
      assert all[id] == if id in mine then (c + mine)[id] else (c + theirs)[id];
    }
  }

  // ---------- Steps ----------

  lemma BegunIsSound(d: Database, tx: nat)
    requires Sound(d) && tx !in d.open
    ensures Sound(After(d, Begin(tx)))
  {
    var v := After(d, Begin(tx));
    assert View(v, tx) == d.committed;
    forall t | t in v.open ensures TransactionSound(v, t) {
      if t != tx {
        assert TransactionSound(d, t) && View(v, t) == View(d, t);
      }
    }
    forall s, t | s in v.open && t in v.open && s != t ensures Disjoint(v.open[s].own, v.open[t].own) {
      if s != tx && t != tx {
        assert Disjoint(d.open[s].own, d.open[t].own);
      }
    }
  }

  lemma InsertedSeesSound(d: Database, tx: nat, refs: References, row: Attribution)
    requires Sound(d) && tx in d.open && RowInserts(d, tx, refs, row)
    ensures TransactionSound(After(d, InsertRow(tx, refs, row)), tx)
  {
    var view, v := View(d, tx), After(d, InsertRow(tx, refs, row));
    assert TransactionSound(d, tx);
    assert View(v, tx) == view[row.id := row];
    AcceptedRowKeepsLinks(refs, view, row);
  }

  lemma InsertedIsSound(d: Database, tx: nat, refs: References, row: Attribution)
    requires Sound(d) && tx in d.open && RowInserts(d, tx, refs, row)
    ensures Sound(After(d, InsertRow(tx, refs, row)))
  {
    var v := After(d, InsertRow(tx, refs, row));
    InsertedSeesSound(d, tx, refs, row);
    forall t | t in v.open ensures TransactionSound(v, t) {
      if t != tx {
        assert TransactionSound(d, t) && View(v, t) == View(d, t);
      }
    }
    forall s, t | s in v.open && t in v.open && s != t ensures Disjoint(v.open[s].own, v.open[t].own) {
      if s != tx && t != tx {
        assert Disjoint(d.open[s].own, d.open[t].own);
      }
    }
  }

  lemma CommittedIsSound(d: Database, tx: nat)
    requires Sound(d) && tx in d.open && !d.open[tx].busy
    ensures Sound(After(d, Commit(tx)))
  {
    var v := After(d, Commit(tx));
    assert TransactionSound(d, tx);
    forall t | t in v.open ensures TransactionSound(v, t) {
      assert TransactionSound(d, t) && Disjoint(d.open[tx].own, d.open[t].own);
      ViewSurvivesCommit(d.committed, d.open[t].own, d.open[tx].own);
      assert View(v, t) == (d.committed + d.open[tx].own) + d.open[t].own;
      assert View(d, t).Keys <= View(v, t).Keys;
    }
  }

  lemma StepKeepsSound(d: Database, ev: Event)
    requires Sound(d) && Enabled(d, ev)
    ensures Sound(After(d, ev))
  {
    match ev
    case Begin(tx) => BegunIsSound(d, tx);
    case InsertRow(tx, refs, row) => InsertedIsSound(d, tx, refs, row);
    case Commit(tx) => CommittedIsSound(d, tx);
    case _ =>
  }

  lemma {:induction false} RunKeepsSound(evs: seq<Event>)
    requires Run(evs).Some?
    ensures Sound(Run(evs).value)
  {
    if evs == [] {
      EmptyIsLinked();
    } else {
      RunKeepsSound(evs[..|evs| - 1]);
      StepKeepsSound(Run(evs[..|evs| - 1]).value, evs[|evs| - 1]);
    }
  }

  // ---------- Main results ----------

  /**
   However transactions interleave, no transaction ever sees a cycle, not even in the
   middle of its own statement while others commit around it.
   */
  lemma NoTransactionSeesACycle(evs: seq<Event>, tx: nat)
    requires Run(evs).Some? && tx in Run(evs).value.open
    ensures Acyclic(View(Run(evs).value, tx)) && SupersedesOnce(View(Run(evs).value, tx))
  {
    RunKeepsSound(evs);
    assert TransactionSound(Run(evs).value, tx);
  }

  /** However transactions interleave, the committed table is a disjoint union of finite linear chains at every moment. */
  lemma CommittedTableIsChains(evs: seq<Event>)
    requires Run(evs).Some?
    ensures UnionOfChains(Run(evs).value.committed)
  {
    RunKeepsSound(evs);
    LinkedIsChains(Run(evs).value.committed);
  }

  /** Committed rows stay as they are, whatever any transaction does afterwards. */
  lemma {:induction false} CommittedRowsAreForever(evs: seq<Event>, n: nat, id: Id)
    requires n <= |evs| && Run(evs).Some? && Run(evs[..n]).Some? && id in Run(evs[..n]).value.committed
    ensures id in Run(evs).value.committed && Run(evs).value.committed[id] == Run(evs[..n]).value.committed[id]
    decreases |evs|
  {
    if n == |evs| {
      assert evs[..n] == evs;
    } else {
      var front := evs[..|evs| - 1];
      assert front[..n] == evs[..n];
      CommittedRowsAreForever(front, n, id);
      RunKeepsSound(front);
      var d, ev := Run(front).value, evs[|evs| - 1];
      if ev.Commit? {
        assert TransactionSound(d, ev.tx);
      }
    }
  }

  // ---------- Tenants ----------

  /** Some step of the run put this row in, under reference data that matched its tenant. */
  ghost predicate InsertedBy(evs: seq<Event>, row: Attribution) {
    exists i :: 0 <= i < |evs| && evs[i].InsertRow? && evs[i].row == row && SameTenant(evs[i].refs, row)
  }

  /** Every row, committed or not, was put in by a step of the run. */
  ghost predicate AllInserted(evs: seq<Event>, d: Database) {
    && (forall id :: id in d.committed ==> InsertedBy(evs, d.committed[id]))
    && (forall tx :: tx in d.open ==> forall id :: id in d.open[tx].own ==> InsertedBy(evs, d.open[tx].own[id]))
  }

  lemma InsertedEarlier(evs: seq<Event>, ev: Event, row: Attribution)
    requires InsertedBy(evs, row)
    ensures InsertedBy(evs + [ev], row)
  {
    var i :| 0 <= i < |evs| && evs[i].InsertRow? && evs[i].row == row && SameTenant(evs[i].refs, row);
    assert (evs + [ev])[i] == evs[i];
  }

  lemma StepKeepsInserted(evs: seq<Event>, d: Database, ev: Event)
    requires AllInserted(evs, d) && Enabled(d, ev)
    ensures AllInserted(evs + [ev], After(d, ev))
  {
    var v := After(d, ev);
    forall row | InsertedBy(evs, row) ensures InsertedBy(evs + [ev], row) {
      InsertedEarlier(evs, ev, row);
    }
    if ev.InsertRow? {
      assert (evs + [ev])[|evs|] == ev;
      assert SameTenant(ev.refs, ev.row);
    }
    forall tx | tx in v.open ensures forall id :: id in v.open[tx].own ==> InsertedBy(evs + [ev], v.open[tx].own[id]) {}
  }

  lemma {:induction false} RunKeepsInserted(evs: seq<Event>)
    requires Run(evs).Some?
    ensures AllInserted(evs, Run(evs).value)
  {
    if evs != [] {
      var front := evs[..|evs| - 1];
      RunKeepsInserted(front);
      StepKeepsInserted(front, Run(front).value, evs[|evs| - 1]);
      assert evs == front + [evs[|evs| - 1]];
    }
  }

  /** However transactions interleave, every committed row was inserted while its tenant matched its evidence and its principal. */
  lemma CommittedRowsAreVetted(evs: seq<Event>, id: Id)
    requires Run(evs).Some? && id in Run(evs).value.committed
    ensures InsertedBy(evs, Run(evs).value.committed[id])
  {
    RunKeepsInserted(evs);
  }

  /** A row goes in exactly when it fits the transaction's own view and no other transaction holds its id or its target. */
  lemma RowInsertsIff(d: Database, tx: nat, refs: References, row: Attribution)
    requires tx in d.open
    ensures RowInserts(d, tx, refs, row) <==>
      && Fits(refs, View(d, tx), row)
      && (forall t :: t in d.open ==> row.id !in d.open[t].own)
      && (row.supersedes.Some? ==> forall t, x :: t in d.open && x in d.open[t].own ==>
            d.open[t].own[x].supersedes != row.supersedes)
      && row.id !in d.committed
      && (row.supersedes.Some? ==> forall x :: x in d.committed ==> d.committed[x].supersedes != row.supersedes)
  {
    RowAcceptedIff(refs, View(d, tx), row);
    if RowInserts(d, tx, refs, row) && row.supersedes.Some? {
      forall t, x | t in d.open && x in d.open[t].own ensures d.open[t].own[x].supersedes != row.supersedes {
        assert !SupersededBy(d.open[t].own, row.supersedes.value);
      }
    }
  }

  // ---------- One transaction alone ----------

  function Inserts(tx: nat, refs: References, rows: seq<Attribution>): seq<Event> {
    if rows == [] then []
    else Inserts(tx, refs, rows[..|rows| - 1]) + [InsertRow(tx, refs, rows[|rows| - 1])]
  }

  /** A transaction that runs one statement and commits. */
  function OneStatement(tx: nat, refs: References, rows: seq<Attribution>): seq<Event> {
    [Begin(tx)] + Inserts(tx, refs, rows) + [EndStatement(tx)] + [Commit(tx)]
  }

  lemma OneMore(evs: seq<Event>, ev: Event)
    ensures Run(evs + [ev]) ==
      if Run(evs).Some? && Enabled(Run(evs).value, ev) then Some(After(Run(evs).value, ev)) else None
  {
    assert (evs + [ev])[..|evs|] == evs;
  }

  lemma AloneStep(t: Table, own: Table, busy: bool, tx: nat, refs: References, row: Attribution)
    requires own.Keys !! t.Keys
    ensures var d := Database(t, map[tx := Transaction(own, busy)]);
      (if Enabled(d, InsertRow(tx, refs, row)) then Some(After(d, InsertRow(tx, refs, row))) else None) ==
        if RowAccepted(refs, t + own, row) then Some(Database(t, map[tx := Transaction(own[row.id := row], true)])) else None
  {
    assert map[tx := Transaction(own, busy)][tx := Transaction(own[row.id := row], true)] ==
      map[tx := Transaction(own[row.id := row], true)];
  }

  /** The transaction alone in its database, with `own` put in. */
  ghost predicate Alone(d: Option<Database>, t: Table, tx: nat, own: Table, busy: bool, after: Option<Table>) {
    if after.Some? then
      own.Keys !! t.Keys && after.value == t + own && d == Some(Database(t, map[tx := Transaction(own, busy)]))
    else d.None?
  }

  lemma AloneGrows(d: Option<Database>, t: Table, tx: nat, refs: References, rows: seq<Attribution>, own: Table)
    requires rows != [] && Alone(d, t, tx, own, rows[..|rows| - 1] != [], InsertRows(refs, t, rows[..|rows| - 1]))
    ensures var row := rows[|rows| - 1];
      Alone(if d.Some? && Enabled(d.value, InsertRow(tx, refs, row)) then Some(After(d.value, InsertRow(tx, refs, row))) else None,
            t, tx, own[row.id := row], true, InsertRows(refs, t, rows))
  {
    var row := rows[|rows| - 1];
    if d.Some? {
      AloneStep(t, own, rows[..|rows| - 1] != [], tx, refs, row);
      assert (t + own)[row.id := row] == t + own[row.id := row];
    }
  }

  lemma InsertsFollow(begun: seq<Event>, tx: nat, refs: References, rows: seq<Attribution>)
    requires rows != []
    ensures begun + Inserts(tx, refs, rows) ==
      begun + Inserts(tx, refs, rows[..|rows| - 1]) + [InsertRow(tx, refs, rows[|rows| - 1])]
  {
  }

  lemma {:induction false} AloneRuns(evs: seq<Event>, t: Table, tx: nat, refs: References, rows: seq<Attribution>) returns (own: Table)
    requires Run(evs) == Some(Database(t, map[]))
    ensures Alone(Run(evs + [Begin(tx)] + Inserts(tx, refs, rows)), t, tx, own, rows != [], InsertRows(refs, t, rows))
  {
    var begun := evs + [Begin(tx)];
    if rows == [] {
      own := map[];
      OneMore(evs, Begin(tx));
      assert begun + Inserts(tx, refs, rows) == begun && t + own == t;
    } else {
      var front, row := rows[..|rows| - 1], rows[|rows| - 1];
      var before := AloneRuns(evs, t, tx, refs, front);
      InsertsFollow(begun, tx, refs, rows);
      OneMore(begun + Inserts(tx, refs, front), InsertRow(tx, refs, row));
      AloneGrows(Run(begun + Inserts(tx, refs, front)), t, tx, refs, rows, before);
      own := before[row.id := row];
    }
  }

  /**
   A transaction that has the database to itself and runs one statement can commit
   exactly when the statement is accepted, and commits what the statement stores.
   */
  lemma OneStatementCommitsIff(evs: seq<Event>, t: Table, tx: nat, refs: References, rows: seq<Attribution>)
    requires Run(evs) == Some(Database(t, map[])) && ForeignKeysHold(t)
    ensures Run(evs + OneStatement(tx, refs, rows)) ==
      if StatementAccepted(refs, t, rows) then Some(Database(InsertRows(refs, t, rows).value, map[])) else None
  {
    var inserted := evs + [Begin(tx)] + Inserts(tx, refs, rows);
    var own := AloneRuns(evs, t, tx, refs, rows);
    OneMore(inserted, EndStatement(tx));
    OneMore(inserted + [EndStatement(tx)], Commit(tx));
    assert evs + OneStatement(tx, refs, rows) == inserted + [EndStatement(tx)] + [Commit(tx)];
    if InsertRows(refs, t, rows).Some? {
      OwnKeysIff(t, own, rows != [], tx);
    }
  }

  lemma OwnKeysIff(t: Table, own: Table, busy: bool, tx: nat)
    requires ForeignKeysHold(t) && own.Keys !! t.Keys
    ensures OwnKeysHold(Database(t, map[tx := Transaction(own, busy)]), tx) <==> ForeignKeysHold(t + own)
  {
    var d := Database(t, map[tx := Transaction(own, busy)]);
    assert View(d, tx) == t + own;
    forall id | id in t + own ensures (t + own)[id] == if id in own then own[id] else t[id] {}
    if ForeignKeysHold(t + own) {
      forall id | id in own && own[id].supersedes.Some? ensures own[id].supersedes.value in t + own {
        assert (t + own)[id] == own[id];
      }
    }
  }
}
