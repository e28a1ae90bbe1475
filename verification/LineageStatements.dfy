/**
 Multi-row INSERT statements on the attribution table (migration 0014): triggers
 before each row, CHECK, primary key and UNIQUE as each row goes in, foreign keys
 at the end of the statement. A statement that fails anywhere changes nothing, and
 nothing is ever updated or deleted.
 */
module LineageStatements {
  import opened Basics
  import opened Lineage

  /** The tenants of evidence records and of identity users, as the triggers look them up. */
  datatype References = References(evidenceTenant: map<nat, nat>, principalTenant: map<nat, nat>)

  /** `_check_evidence_tenant`. */
  predicate EvidenceTenantMatches(refs: References, row: Attribution) {
    row.evidence in refs.evidenceTenant && refs.evidenceTenant[row.evidence] == row.tenant
  }

  /** `_check_same_tenant`. */
  predicate PrincipalTenantMatches(refs: References, row: Attribution) {
    row.principal.Some? ==>
      row.principal.value in refs.principalTenant && refs.principalTenant[row.principal.value] == row.tenant
  }

  predicate SupersededBy(t: Table, id: Id) {
    exists x :: x in t && t[x].supersedes == Some(id)
  }

  /** Triggers, CHECK (id <> supersedes_id), primary key, UNIQUE (supersedes_id). */
  predicate RowAccepted(refs: References, t: Table, row: Attribution) {
    && EvidenceTenantMatches(refs, row)
    && PrincipalTenantMatches(refs, row)
    && RejectCycle(t, row) == Pass
    && row.supersedes != Some(row.id)
    && row.id !in t
    && (row.supersedes.Some? ==> !SupersededBy(t, row.supersedes.value))
  }

  /** The table after the first rows of a statement, before any foreign key is checked. */
  function InsertRows(refs: References, t: Table, rows: seq<Attribution>): Option<Table> {
    if rows == [] then Some(t)
    else
      var last := rows[|rows| - 1];
      var before := InsertRows(refs, t, rows[..|rows| - 1]);
      if before.Some? && RowAccepted(refs, before.value, last) then Some(before.value[last.id := last]) else None
  }

  predicate ForeignKeysHold(t: Table) {
    forall id :: id in t ==> t[id].supersedes.Some? ==> t[id].supersedes.value in t
  }

  predicate StatementAccepted(refs: References, t: Table, rows: seq<Attribution>) {
    var after := InsertRows(refs, t, rows);
    after.Some? && ForeignKeysHold(after.value)
  }

  /** Commands against the table: the append-only trigger rejects every update and delete. */
  datatype Command = Insert(refs: References, rows: seq<Attribution>) | UpdateOrDelete

  function Apply(t: Table, cmd: Command): Table {
    match cmd
    case Insert(refs, rows) => if StatementAccepted(refs, t, rows) then InsertRows(refs, t, rows).value else t
    case UpdateOrDelete => t
  }

  function TableAfter(cmds: seq<Command>): Table {
    if cmds == [] then map[] else Apply(TableAfter(cmds[..|cmds| - 1]), cmds[|cmds| - 1])
  }

  // ---------- Invariants ----------

  ghost predicate SupersedesOnce(t: Table) {
    forall a, b :: a in t && b in t && t[a].supersedes.Some? && t[a].supersedes == t[b].supersedes ==> a == b
  }

  /** What holds at every moment, also in the middle of a statement. */
  ghost predicate WellLinked(t: Table) {
    Acyclic(t) && SupersedesOnce(t) && forall id :: id in t ==> t[id].id == id
  }

  lemma AcceptedRowKeepsLinks(refs: References, t: Table, row: Attribution)
    requires WellLinked(t) && RowAccepted(refs, t, row)
    ensures WellLinked(t[row.id := row])
  {
    PassingRowKeepsAcyclic(t, row);
  }

  lemma {:induction false} RowsKeepLinks(refs: References, t: Table, rows: seq<Attribution>)
    requires WellLinked(t) && InsertRows(refs, t, rows).Some?
    ensures WellLinked(InsertRows(refs, t, rows).value)
  {
    if rows != [] {
      RowsKeepLinks(refs, t, rows[..|rows| - 1]);
      AcceptedRowKeepsLinks(refs, InsertRows(refs, t, rows[..|rows| - 1]).value, rows[|rows| - 1]);
    }
  }

  lemma EmptyIsLinked()
    ensures WellLinked(map[])
  {
    forall p: seq<Id> ensures |p| < 2 || !IsPath(map[], p) {
      if |p| >= 2 {
        assert !Points(map[], p[0], p[1]);
      }
    }
  }

  /** Between statements the links are sound and every pointer resolves. */
  lemma {:induction false} TableIsLinked(cmds: seq<Command>)
    ensures WellLinked(TableAfter(cmds)) && ForeignKeysHold(TableAfter(cmds))
  {
    if cmds == [] {
      EmptyIsLinked();
    } else {
      var before, cmd := TableAfter(cmds[..|cmds| - 1]), cmds[|cmds| - 1];
      TableIsLinked(cmds[..|cmds| - 1]);
      if cmd.Insert? && StatementAccepted(cmd.refs, before, cmd.rows) {
        RowsKeepLinks(cmd.refs, before, cmd.rows);
      }
    }
  }

  /**
   No cycle can ever be assembled: after any history of statements, and after any
   number of rows of a further one, whatever their order and however many of their
   pointers do not resolve yet, the pointer graph is acyclic.
   */
  lemma NoCycleAtAnyMoment(cmds: seq<Command>, refs: References, rows: seq<Attribution>)
    requires InsertRows(refs, TableAfter(cmds), rows).Some?
    ensures Acyclic(InsertRows(refs, TableAfter(cmds), rows).value)
  {
    TableIsLinked(cmds);
    RowsKeepLinks(refs, TableAfter(cmds), rows);
  }

  // ---------- Exactly which statements are accepted ----------

  /** The row's evidence is its tenant's, and so is its principal if it has one. */
  ghost predicate SameTenant(refs: References, row: Attribution) {
    && row.evidence in refs.evidenceTenant && refs.evidenceTenant[row.evidence] == row.tenant
    && match row.principal
       case Some(p) => p in refs.principalTenant && refs.principalTenant[p] == row.tenant
       case None => true
  }

  /** The table with these rows put in, unchecked. */
  function Added(t: Table, rows: seq<Attribution>): Table {
    if rows == [] then t else Added(t, rows[..|rows| - 1])[rows[|rows| - 1].id := rows[|rows| - 1]]
  }

  /** The row is new, its tenant's, and either supersedes nothing or the end of a short lineage that nothing else supersedes. */
  ghost predicate Fits(refs: References, t: Table, row: Attribution) {
    && SameTenant(refs, row) && row.id !in t
    && match row.supersedes
       case None => true
       case Some(target) =>
         && (forall x :: x in t ==> t[x].supersedes != Some(target))
         && (exists q :: FullLineage(t, target, q) && |q| < 10000 && row.id !in q)
  }

  lemma RowAcceptedIff(refs: References, t: Table, row: Attribution)
    ensures RowAccepted(refs, t, row) <==> Fits(refs, t, row)
  {
    if row.supersedes.Some? {
      TriggerPassesExactly(t, row);
      if q :| FullLineage(t, row.supersedes.value, q) && |q| < 10000 && row.id !in q {
        assert row.supersedes.value == q[0] && q[0] in q;
      }
    }
  }

  /** Each of the first `n` rows fits the table with the rows before it. */
  ghost predicate FitInTurn(refs: References, t: Table, rows: seq<Attribution>, n: nat) {
    forall k :: 0 <= k < n && k < |rows| ==> Fits(refs, Added(t, rows[..k]), rows[k])
  }

  lemma FitInTurnFront(refs: References, t: Table, rows: seq<Attribution>, n: nat)
    requires n <= |rows|
    ensures FitInTurn(refs, t, rows[..n], n) <==> FitInTurn(refs, t, rows, n)
  {
    forall k | 0 <= k < n ensures rows[..n][..k] == rows[..k] && rows[..n][k] == rows[k] {}
  }

  lemma FitInTurnLast(refs: References, t: Table, rows: seq<Attribution>, n: nat)
    requires n < |rows|
    ensures FitInTurn(refs, t, rows, n + 1) <==> FitInTurn(refs, t, rows, n) && Fits(refs, Added(t, rows[..n]), rows[n])
  {
  }

  lemma {:induction false} InsertRowsIff(refs: References, t: Table, rows: seq<Attribution>)
    ensures InsertRows(refs, t, rows).Some? <==> FitInTurn(refs, t, rows, |rows|)
    ensures InsertRows(refs, t, rows).Some? ==> InsertRows(refs, t, rows).value == Added(t, rows)
  {
    if rows != [] {
      var n := |rows| - 1;
      InsertRowsIff(refs, t, rows[..n]);
      FitInTurnFront(refs, t, rows, n);
      FitInTurnLast(refs, t, rows, n);
      RowAcceptedIff(refs, Added(t, rows[..n]), rows[n]);
    }
  }

  /**
   A statement is accepted exactly when each of its rows fits the table with the rows
   before it, and in the end every pointer resolves. It then adds exactly its rows.
   */
  lemma StatementAcceptedIff(refs: References, t: Table, rows: seq<Attribution>)
    ensures StatementAccepted(refs, t, rows) <==>
      && FitInTurn(refs, t, rows, |rows|)
      && (forall id :: id in Added(t, rows) && Added(t, rows)[id].supersedes.Some? ==>
            Added(t, rows)[id].supersedes.value in Added(t, rows))
    ensures Apply(t, Insert(refs, rows)) == if StatementAccepted(refs, t, rows) then Added(t, rows) else t
  {
    InsertRowsIff(refs, t, rows);
  }

  // ---------- Tenants ----------

  /** A statement with a row about another tenant's evidence or principal, or an unknown one, changes nothing. */
  lemma OtherTenantsRowIsRefused(refs: References, t: Table, rows: seq<Attribution>, k: nat)
    requires k < |rows| && !SameTenant(refs, rows[k])
    ensures Apply(t, Insert(refs, rows)) == t
  {
    StatementAcceptedIff(refs, t, rows);
    assert !Fits(refs, Added(t, rows[..k]), rows[k]);
  }

  /** Some statement of the history put this row in, under reference data that matched its tenant. */
  ghost predicate Vetted(cmds: seq<Command>, row: Attribution) {
    exists i :: 0 <= i < |cmds| && cmds[i].Insert? && row in cmds[i].rows && SameTenant(cmds[i].refs, row)
  }

  lemma {:induction false} AddedOnly(t: Table, rows: seq<Attribution>, id: Id)
    requires id in Added(t, rows)
    ensures (id in t && Added(t, rows)[id] == t[id]) || exists k :: 0 <= k < |rows| && rows[k] == Added(t, rows)[id]
  {
    if rows != [] && id != rows[|rows| - 1].id {
      AddedOnly(t, rows[..|rows| - 1], id);
    }
  }

  /** Every stored row agrees about its tenant with its evidence and with its principal. */
  lemma {:induction false} StoredRowsAreVetted(cmds: seq<Command>, id: Id)
    requires id in TableAfter(cmds)
    ensures Vetted(cmds, TableAfter(cmds)[id])
  {
    var n := |cmds| - 1;
    var before, cmd, row := TableAfter(cmds[..n]), cmds[n], TableAfter(cmds)[id];
    if id in before && row == before[id] {
      StoredRowsAreVetted(cmds[..n], id);
      var i :| 0 <= i < n && cmds[..n][i].Insert? && row in cmds[..n][i].rows && SameTenant(cmds[..n][i].refs, row);
      assert cmds[i] == cmds[..n][i];
    } else {
      StatementAcceptedIff(cmd.refs, before, cmd.rows);
      AddedOnly(before, cmd.rows, id);
      var k :| 0 <= k < |cmd.rows| && cmd.rows[k] == row;
      assert Fits(cmd.refs, Added(before, cmd.rows[..k]), cmd.rows[k]);
    }
  }

  /** Nothing is ever changed or lost: a row once stored stays as it is. */
  lemma {:induction false} RowsAreForever(cmds: seq<Command>, n: nat, id: Id)
    requires n <= |cmds| && id in TableAfter(cmds[..n])
    ensures id in TableAfter(cmds) && TableAfter(cmds)[id] == TableAfter(cmds[..n])[id]
    decreases |cmds|
  {
    if n == |cmds| {
      assert cmds[..n] == cmds;
    } else {
      var front := cmds[..|cmds| - 1];
      assert front[..n] == cmds[..n];
      RowsAreForever(front, n, id);
      var cmd := cmds[|cmds| - 1];
      if cmd.Insert? && StatementAccepted(cmd.refs, TableAfter(front), cmd.rows) {
        RowsOnlyAdd(cmd.refs, TableAfter(front), cmd.rows, id);
      }
    }
  }

  lemma {:induction false} RowsOnlyAdd(refs: References, t: Table, rows: seq<Attribution>, id: Id)
    requires InsertRows(refs, t, rows).Some? && id in t
    ensures id in InsertRows(refs, t, rows).value && InsertRows(refs, t, rows).value[id] == t[id]
  {
    if rows != [] {
      RowsOnlyAdd(refs, t, rows[..|rows| - 1], id);
    }
  }
}
