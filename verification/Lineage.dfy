/**
 The supersession lineage of actor attributions (migration 0014): rows point at
 the row they correct. A trigger walks the ancestry of each new row before it is
 inserted, while foreign keys wait for the end of the statement, so pointers to
 rows that do not exist yet are normal in the middle of a statement.
 */
module Lineage {
  import opened Basics

  type Id = nat

  datatype Attribution = Attribution(id: Id, tenant: nat, evidence: nat, principal: Option<nat>, supersedes: Option<Id>)

  type Table = map<Id, Attribution>

  const MAX_DEPTH: nat := 10000

  // ---------- The pointer graph ----------

  predicate Points(t: Table, a: Id, b: Id) {
    a in t && t[a].supersedes == Some(b)
  }

  /** Each id of the sequence points at the next one. The last need not be a row. */
  ghost predicate IsPath(t: Table, p: seq<Id>) {
    forall i :: 0 <= i < |p| - 1 ==> Points(t, p[i], p[i + 1])
  }

  /** No path leads from an id back to itself. */
  ghost predicate Acyclic(t: Table) {
    forall p :: IsPath(t, p) && |p| >= 2 ==> p[0] != p[|p| - 1]
  }

  /** The pointer leads no further: it is unresolved, or its row supersedes nothing. */
  predicate Stops(t: Table, id: Id) {
    id !in t || t[id].supersedes.None?
  }

  // ---------- The cycle trigger ----------

  /** The `ancestry` query from one of its pointers on: every pointer it visits, in order. */
  function Ancestry(t: Table, id: Id, depth: nat): (visited: seq<Id>)
    requires 1 <= depth <= MAX_DEPTH
    ensures 1 <= |visited| <= MAX_DEPTH - depth + 1
    decreases MAX_DEPTH - depth
  {
    [id] + if depth < MAX_DEPTH && id in t && t[id].supersedes.Some? then Ancestry(t, t[id].supersedes.value, depth + 1) else []
  }

  datatype Verdict = Pass | LineageCycles | LineageTooDeep

  /** `_reject_cycle`. */
  function RejectCycle(t: Table, row: Attribution): Verdict {
    if row.supersedes.None? then Pass
    else
      var visited := Ancestry(t, row.supersedes.value, 1);
      if row.id in visited then LineageCycles
      else if |visited| >= MAX_DEPTH then LineageTooDeep
      else Pass
  }

  /** The visited pointers form a path, and a walk short of the bound ends where the lineage ends. */
  lemma {:induction false} AncestryIsPath(t: Table, id: Id, depth: nat)
    requires 1 <= depth <= MAX_DEPTH
    ensures IsPath(t, Ancestry(t, id, depth)) && Ancestry(t, id, depth)[0] == id
    ensures |Ancestry(t, id, depth)| <= MAX_DEPTH - depth ==> Stops(t, Ancestry(t, id, depth)[|Ancestry(t, id, depth)| - 1])
    decreases MAX_DEPTH - depth
  {
    if depth < MAX_DEPTH && id in t && t[id].supersedes.Some? {
      AncestryIsPath(t, t[id].supersedes.value, depth + 1);
      var rest := Ancestry(t, t[id].supersedes.value, depth + 1);
      assert Ancestry(t, id, depth) == [id] + rest;
    }
  }

  /** A walk that stayed short of the bound has seen every path from its start. */
  lemma {:induction false} AncestryCoversPaths(t: Table, q: seq<Id>, depth: nat)
    requires 1 <= depth <= MAX_DEPTH
    requires q != [] && IsPath(t, q)
    requires |Ancestry(t, q[0], depth)| <= MAX_DEPTH - depth
    ensures q <= Ancestry(t, q[0], depth)
    decreases MAX_DEPTH - depth
  {
    if |q| > 1 {
      assert Points(t, q[0], q[1]);
      assert Ancestry(t, q[0], depth) == [q[0]] + Ancestry(t, q[1], depth + 1);
      AncestryCoversPaths(t, q[1..], depth + 1);
      assert q == [q[0]] + q[1..];
    }
  }

  /** `q` is the whole lineage above a pointer: from it to where it stops. */
  ghost predicate FullLineage(t: Table, id: Id, q: seq<Id>) {
    q != [] && q[0] == id && IsPath(t, q) && Stops(t, q[|q| - 1])
  }

  /** Of a whole lineage the walk visits exactly what the bound lets it see. */
  lemma {:induction false} AncestryOfFullLineage(t: Table, q: seq<Id>, depth: nat)
    requires 1 <= depth <= MAX_DEPTH
    requires q != [] && FullLineage(t, q[0], q)
    ensures Ancestry(t, q[0], depth) == if |q| <= MAX_DEPTH - depth then q else q[..MAX_DEPTH - depth + 1]
    decreases MAX_DEPTH - depth
  {
    if |q| > 1 {
      assert Points(t, q[0], q[1]);
      assert q == [q[0]] + q[1..];
      if depth < MAX_DEPTH {
        assert FullLineage(t, q[1], q[1..]);
        AncestryOfFullLineage(t, q[1..], depth + 1);
      }
    }
  }

  /** The trigger's verdict on a row, read off the whole lineage that the row wants to join. */
  lemma VerdictOnFullLineage(t: Table, row: Attribution, q: seq<Id>)
    requires row.supersedes.Some? && FullLineage(t, row.supersedes.value, q)
    ensures RejectCycle(t, row) ==
      if row.id in q[..if |q| < 10000 then |q| else 10000] then LineageCycles
      else if |q| >= 10000 then LineageTooDeep
      else Pass
  {
    AncestryOfFullLineage(t, q, 1);
  }

  /**
   The trigger is exact and fails closed: it passes a superseding row exactly when
   the row's whole lineage, unbounded, stops in fewer than 10000 pointers and the
   row's own id is not among them.
   */
  lemma TriggerPassesExactly(t: Table, row: Attribution)
    requires row.supersedes.Some?
    ensures RejectCycle(t, row) == Pass <==>
      exists q :: FullLineage(t, row.supersedes.value, q) && |q| < 10000 && row.id !in q
  {
    var start := row.supersedes.value;
    var visited := Ancestry(t, start, 1);
    AncestryIsPath(t, start, 1);
    if RejectCycle(t, row) == Pass {
      assert FullLineage(t, start, visited);
    }
    if q :| FullLineage(t, start, q) && |q| < MAX_DEPTH && row.id !in q {
      VerdictOnFullLineage(t, row, q);
    }
  }

  /** A row that would close a loop of any length, however far beyond the bound, is rejected. */
  lemma ClosingRowIsRejected(t: Table, row: Attribution, q: seq<Id>)
    requires row.supersedes.Some?
    requires q != [] && IsPath(t, q) && q[0] == row.supersedes.value && q[|q| - 1] == row.id
    ensures RejectCycle(t, row) != Pass
  {
    if |Ancestry(t, q[0], 1)| < MAX_DEPTH {
      AncestryCoversPaths(t, q, 1);
    }
  }

  // ---------- Inserting keeps the graph acyclic ----------

  /** A loop can be started at any of its members. */
  lemma Rotate(t: Table, c: seq<Id>, j: nat) returns (r: seq<Id>)
    requires IsPath(t, c) && |c| >= 2 && c[0] == c[|c| - 1]
    requires j < |c| - 1
    ensures IsPath(t, r) && |r| >= 2 && r[0] == r[|r| - 1] == c[j]
  {
    r := c[j..] + c[1..j + 1];
    forall i | 0 <= i < |r| - 1 ensures Points(t, r[i], r[i + 1]) {
      var k := if i < |c| - 1 - j then i + j else i + j - (|c| - 1);
      assert r[i] == c[k] && r[i + 1] == c[k + 1];
    }
  }

  /** The first time a loop comes back to where it started. */
  lemma {:induction false} FirstReturn(r: seq<Id>, x: Id, from: nat) returns (k: nat)
    requires from < |r| && r[|r| - 1] == x
    ensures from <= k < |r| && r[k] == x
    ensures forall i :: from <= i < k ==> r[i] != x
    decreases |r| - from
  {
    if r[from] == x {
      k := from;
    } else {
      k := FirstReturn(r, x, from + 1);
    }
  }

  /** Whatever rows are missing, a row that passes the trigger closes no loop. */
  lemma PassingRowKeepsAcyclic(t: Table, row: Attribution)
    requires Acyclic(t) && row.id !in t && RejectCycle(t, row) == Pass
    ensures Acyclic(t[row.id := row])
  {
    var u := t[row.id := row];
    forall c | IsPath(u, c) && |c| >= 2 ensures c[0] != c[|c| - 1] {
      if c[0] == c[|c| - 1] {
        if j :| 0 <= j < |c| - 1 && c[j] == row.id {
          var r := Rotate(u, c, j);
          var k := FirstReturn(r, row.id, 1);
          var q := r[1..k + 1];
          assert Points(u, r[0], r[1]);
          assert IsPath(u, q) by {
            forall i | 0 <= i < |q| - 1 ensures Points(u, q[i], q[i + 1]) {
              assert Points(u, r[i + 1], r[i + 2]);
            }
          }
          ClosingRowIsRejected(t, row, q);
        }
      }
    }
  }
}
