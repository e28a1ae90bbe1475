/**
 The attribution table as the object that statements change in place, and the walk
 by which the service finds the row to correct
 (migration 0014; backend/app/contexts/evidence/application/attribution_service.py,
 `_resolve_active_head`).
 */
module AttributionTable {
  import opened Basics
  import opened Lineage
  import opened LineageStatements
  import opened LineageChains

  datatype Lookup = Active(id: Id) | NotFound | NotTerminated

  /** `_MAX_LINEAGE_WALK`. */
  const MAX_LINEAGE_WALK: nat := 10000

  class Attributions {
    var rows: Table
    /** Every command so far. */
    ghost var history: seq<Command>

    ghost predicate Valid()
      reads this
    {
      rows == TableAfter(history)
    }

    constructor ()
      ensures Valid() && rows == map[] && history == []
    {
      rows, history := map[], [];
    }

    /** The rows of a statement go in one after the other, each checked against the rows before it, up to the first refused one. */
    method InsertEachRow(refs: References, batch: seq<Attribution>) returns (ok: bool)
      modifies this`rows
      ensures ok <==> InsertRows(refs, old(rows), batch).Some?
      ensures ok ==> InsertRows(refs, old(rows), batch) == Some(rows)
    {
      ghost var before := rows;
      for i := 0 to |batch|
        invariant InsertRows(refs, before, batch[..i]) == Some(rows)
      {
        assert batch[..i + 1][..i] == batch[..i];
        if !RowAccepted(refs, rows, batch[i]) {
          RefusedRowRefusesStatement(refs, before, batch, i + 1);
          return false;
        }
        rows := rows[batch[i].id := batch[i]];
      }
      assert batch[..|batch|] == batch;
      return true;
    }

    /**
     One INSERT statement. The first refused row, or a foreign key left open at the
     end, undoes the whole statement.
     */
    method InsertStatement(refs: References, batch: seq<Attribution>) returns (ok: bool)
      requires Valid()
      modifies this
      ensures Valid() && history == old(history) + [Insert(refs, batch)]
      ensures ok <==> StatementAccepted(refs, old(rows), batch)
      ensures rows == if ok then Added(old(rows), batch) else old(rows)
      ensures ok <==> FitInTurn(refs, old(rows), batch, |batch|) && ForeignKeysHold(Added(old(rows), batch))
    {
      ghost var past := history;
      var before := rows;
      history := history + [Insert(refs, batch)];
      assert history[..|history| - 1] == past;
      StatementAcceptedIff(refs, rows, batch);
      InsertRowsIff(refs, rows, batch);
      ok := InsertEachRow(refs, batch);
      if ok && !ForeignKeysHold(rows) {
        ok := false;
      }
      if !ok {
        rows := before;
      }
    }

    /** The service's forward walk from any row of a lineage to its active head, at most 10000 rows long. */
    method ResolveActiveHead(id: Id) returns (found: Lookup)
      requires Valid()
      ensures id !in rows <==> found == NotFound
      ensures forall c: seq<Id>, i: nat :: IsChain(rows, c) && i < |c| && c[i] == id ==>
        found == if i < 10000 then Active(c[0]) else NotTerminated
    {
      if id !in rows {
        return NotFound;
      }
      TableIsLinked(history);
      ghost var c := ChainThrough(rows, id);
      ghost var start: nat :| start < |c| && c[start] == id;
      OnlyChain(rows, c, start);
      var current := id;
      for hops := 0 to MAX_LINEAGE_WALK
        invariant hops <= start && current == c[start - hops]
      {
        if s :| s in rows && rows[s].supersedes == Some(current) {
          current := s;
        } else {
          InnerIsSuperseded(rows, c, start - hops);
          return Active(current);
        }
      }
      return NotTerminated;
    }
  }

  /** A statement fails as soon as one of its first rows does. */
  lemma {:induction false} RefusedRowRefusesStatement(refs: References, t: Table, batch: seq<Attribution>, k: nat)
    requires k <= |batch| && InsertRows(refs, t, batch[..k]).None?
    ensures InsertRows(refs, t, batch).None?
    decreases |batch| - k
  {
    if k == |batch| {
      assert batch[..k] == batch;
    } else {
      assert batch[..k + 1][..k] == batch[..k];
      RefusedRowRefusesStatement(refs, t, batch, k + 1);
    }
  }

  lemma OnlyChain(t: Table, c: seq<Id>, start: nat)
    requires SupersedesOnce(t) && Acyclic(t) && IsChain(t, c) && start < |c|
    ensures forall d: seq<Id>, i: nat :: IsChain(t, d) && i < |d| && d[i] == c[start] ==> d == c && i == start
  {
    forall d: seq<Id>, i: nat | IsChain(t, d) && i < |d| && d[i] == c[start] ensures d == c && i == start {
      ChainsAreDisjoint(t, d, c, i, start);
      PathIsDistinct(t, c);
    }
  }

  /** Every row of a chain but its head has a successor. */
  lemma InnerIsSuperseded(t: Table, c: seq<Id>, i: nat)
    requires IsChain(t, c) && i < |c|
    ensures i > 0 ==> SupersededBy(t, c[i])
  {
    if i > 0 {
      assert Points(t, c[i - 1], c[i]);
    }
  }
}
