/**
 The shape of the attribution table between statements: a disjoint union of finite
 linear chains, each with one root and one head.
 */
module LineageChains {
  import opened Basics
  import opened Lineage
  import opened LineageStatements

  /** A whole lineage, newest first: nothing supersedes its head, its root supersedes nothing. */
  ghost predicate IsChain(t: Table, c: seq<Id>) {
    && c != []
    && IsPath(t, c)
    && (forall i :: 0 <= i < |c| ==> c[i] in t)
    && !SupersededBy(t, c[0])
    && t[c[|c| - 1]].supersedes.None?
  }

  lemma PathIsDistinct(t: Table, p: seq<Id>)
    requires Acyclic(t) && IsPath(t, p)
    ensures Distinct(p)
  {
    forall i, j | 0 <= i < j < |p| ensures p[i] != p[j] {
      var q := p[i..j + 1];
      forall k | 0 <= k < |q| - 1 ensures Points(t, q[k], q[k + 1]) {
        assert Points(t, p[i + k], p[i + k + 1]);
      }
      assert q[0] == p[i] && q[|q| - 1] == p[j];
    }
  }

  lemma PathFits(t: Table, p: seq<Id>)
    requires Acyclic(t) && IsPath(t, p)
    requires forall i :: 0 <= i < |p| ==> p[i] in t
    ensures |p| <= |t|
  {
    PathIsDistinct(t, p);
    DistinctFits(p, t.Keys);
  }

  /** From any row, the pointers lead to a root. */
  lemma {:induction false} DownToRoot(t: Table, p: seq<Id>) returns (c: seq<Id>)
    requires Acyclic(t) && ForeignKeysHold(t)
    requires p != [] && IsPath(t, p) && forall i :: 0 <= i < |p| ==> p[i] in t
    ensures p <= c && IsPath(t, c) && (forall i :: 0 <= i < |c| ==> c[i] in t)
    ensures t[c[|c| - 1]].supersedes.None?
    decreases |t| - |p|
  {
    PathFits(t, p);
    var last := p[|p| - 1];
    if t[last].supersedes.None? {
      c := p;
    } else {
      var longer := p + [t[last].supersedes.value];
      assert IsPath(t, longer);
      PathFits(t, longer);
      c := DownToRoot(t, longer);
    }
  }

  /** From any row, following successors ends at a head. */
  lemma {:induction false} UpToHead(t: Table, p: seq<Id>) returns (c: seq<Id>, k: nat)
    requires Acyclic(t)
    requires p != [] && IsPath(t, p) && forall i :: 0 <= i < |p| ==> p[i] in t
    requires t[p[|p| - 1]].supersedes.None?
    ensures IsChain(t, c) && k + |p| == |c| && c[k..] == p
    decreases |t| - |p|
  {
    PathFits(t, p);
    if s :| s in t && t[s].supersedes == Some(p[0]) {
      var longer := [s] + p;
      assert forall i :: 0 < i < |longer| - 1 ==> Points(t, p[i - 1], p[i]);
      assert IsPath(t, longer);
      PathFits(t, longer);
      c, k := UpToHead(t, longer);
      assert c[k..][1..] == c[k + 1..];
      k := k + 1;
    } else {
      c, k := p, 0;
    }
  }

  /** Paths from one id to a root are the same path. */
  lemma {:induction false} SameDown(t: Table, p: seq<Id>, q: seq<Id>)
    requires p != [] && q != [] && p[0] == q[0]
    requires IsPath(t, p) && IsPath(t, q)
    requires p[|p| - 1] in t && t[p[|p| - 1]].supersedes.None?
    requires q[|q| - 1] in t && t[q[|q| - 1]].supersedes.None?
    ensures p == q
  {
    if |p| > 1 { assert Points(t, p[0], p[1]); }
    if |q| > 1 { assert Points(t, q[0], q[1]); }
    if |p| > 1 && |q| > 1 {
      SameDown(t, p[1..], q[1..]);
      assert p == [p[0]] + p[1..] && q == [q[0]] + q[1..];
    }
  }

  /** Paths from a head to one id are the same path, because a row is superseded once. */
  lemma {:induction false} SameUp(t: Table, p: seq<Id>, q: seq<Id>)
    requires SupersedesOnce(t)
    requires p != [] && q != [] && p[|p| - 1] == q[|q| - 1]
    requires IsPath(t, p) && IsPath(t, q)
    requires !SupersededBy(t, p[0]) && !SupersededBy(t, q[0])
    ensures p == q
  {
    var m, n := |p| - 1, |q| - 1;
    if m > 0 { assert Points(t, p[m - 1], p[m]); }
    if n > 0 { assert Points(t, q[n - 1], q[n]); }
    if m > 0 && n > 0 {
      SameUp(t, p[..m], q[..n]);
      assert p == p[..m] + [p[m]] && q == q[..n] + [q[n]];
    }
  }

  /** Chains that share a row are the same chain. */
  lemma ChainsAreDisjoint(t: Table, c: seq<Id>, d: seq<Id>, i: nat, j: nat)
    requires SupersedesOnce(t) && IsChain(t, c) && IsChain(t, d)
    requires i < |c| && j < |d| && c[i] == d[j]
    ensures c == d
  {
    SameDown(t, c[i..], d[j..]);
    SameUp(t, c[..i + 1], d[..j + 1]);
    assert c == c[..i + 1] + c[i..][1..] && d == d[..j + 1] + d[j..][1..];
  }

  lemma ChainThrough(t: Table, id: Id) returns (c: seq<Id>)
    requires WellLinked(t) && ForeignKeysHold(t) && id in t
    ensures IsChain(t, c) && id in c
  {
    var p := DownToRoot(t, [id]);
    var k;
    c, k := UpToHead(t, p);
    assert c[k] == c[k..][0] == id;
  }

  // ---------- Heads and roots ----------

  function Roots(t: Table): set<Id> {
    set id | id in t && t[id].supersedes.None?
  }

  function Heads(t: Table): set<Id> {
    set id | id in t && !SupersededBy(t, id)
  }

  /** As many rows are superseded as supersede: one each. */
  lemma {:induction false} TargetsCount(t: Table, sources: set<Id>, targets: set<Id>)
    requires SupersedesOnce(t)
    requires forall s :: s in sources ==> s in t && t[s].supersedes.Some?
    requires targets == set s | s in sources :: t[s].supersedes.value
    ensures |targets| == |sources|
    decreases sources
  {
    if sources != {} {
      var s :| s in sources;
      var fewer := sources - {s};
      var rest := set x | x in fewer :: t[x].supersedes.value;
      assert targets == rest + {t[s].supersedes.value};
      TargetsCount(t, fewer, rest);
    }
  }

  lemma HeadsEqualRoots(t: Table)
    requires SupersedesOnce(t) && ForeignKeysHold(t)
    ensures |Heads(t)| == |Roots(t)|
  {
    TargetsCount(t, t.Keys - Roots(t), t.Keys - Heads(t));
  }

  ghost predicate EveryRowInAChain(t: Table) {
    forall id :: id in t ==> exists c: seq<Id> :: IsChain(t, c) && id in c
  }

  ghost predicate NoRowInTwoChains(t: Table) {
    forall c: seq<Id>, d: seq<Id>, id :: IsChain(t, c) && IsChain(t, d) && id in c && id in d ==> c == d
  }

  ghost predicate ChainsAreFinite(t: Table) {
    forall c: seq<Id> :: IsChain(t, c) ==> Distinct(c) && |c| <= |t|
  }

  lemma CoveredByChains(t: Table)
    requires WellLinked(t) && ForeignKeysHold(t)
    ensures EveryRowInAChain(t)
  {
    forall id | id in t ensures exists c: seq<Id> :: IsChain(t, c) && id in c {
      var c := ChainThrough(t, id);
    }
  }

  lemma PartedByChains(t: Table)
    requires SupersedesOnce(t)
    ensures NoRowInTwoChains(t)
  {
    forall c: seq<Id>, d: seq<Id>, id | IsChain(t, c) && IsChain(t, d) && id in c && id in d ensures c == d {
      var i :| 0 <= i < |c| && c[i] == id;
      var j :| 0 <= j < |d| && d[j] == id;
      ChainsAreDisjoint(t, c, d, i, j);
    }
  }

  lemma BoundedChains(t: Table)
    requires Acyclic(t)
    ensures ChainsAreFinite(t)
  {
    forall c: seq<Id> | IsChain(t, c) ensures Distinct(c) && |c| <= |t| {
      PathIsDistinct(t, c);
      PathFits(t, c);
    }
  }

  /** Every row lies in one chain and in no other, and there are as many heads as roots. */
  ghost predicate UnionOfChains(t: Table) {
    EveryRowInAChain(t) && NoRowInTwoChains(t) && ChainsAreFinite(t) && |Heads(t)| == |Roots(t)|
  }

  lemma LinkedIsChains(t: Table)
    requires WellLinked(t) && ForeignKeysHold(t)
    ensures UnionOfChains(t)
  {
    CoveredByChains(t);
    PartedByChains(t);
    BoundedChains(t);
    HeadsEqualRoots(t);
  }

  /** After any history of commands the table is a disjoint union of finite linear chains. */
  lemma TableIsChains(cmds: seq<Command>)
    ensures UnionOfChains(TableAfter(cmds))
  {
    TableIsLinked(cmds);
    LinkedIsChains(TableAfter(cmds));
  }

  // ---------- How long a lineage can get ----------

  /** A chain's head can be superseded exactly while the chain has fewer than 10000 rows. */
  lemma HeadCorrectableIffShort(t: Table, c: seq<Id>, row: Attribution)
    requires IsChain(t, c)
    requires row.id !in t && row.supersedes == Some(c[0])
    ensures RejectCycle(t, row) == Pass <==> |c| < 10000
  {
    assert FullLineage(t, c[0], c);
    AncestryOfFullLineage(t, c, 1);
    assert forall i :: 0 <= i < |c| ==> c[i] != row.id;
  }

  /** No accepted row supersedes the head of a chain of 10000 rows, or touches the chain. */
  lemma RowKeepsLongChain(refs: References, t: Table, row: Attribution, c: seq<Id>)
    requires IsChain(t, c) && |c| >= 10000 && RowAccepted(refs, t, row)
    ensures IsChain(t[row.id := row], c)
  {
    var u := t[row.id := row];
    if row.supersedes == Some(c[0]) {
      HeadCorrectableIffShort(t, c, row);
    }
    forall i | 0 <= i < |c| - 1 ensures Points(u, c[i], c[i + 1]) {
      assert Points(t, c[i], c[i + 1]) && c[i] in t;
    }
    assert !SupersededBy(t, c[0]);
  }

  lemma {:induction false} RowsKeepLongChain(refs: References, t: Table, rows: seq<Attribution>, c: seq<Id>)
    requires IsChain(t, c) && |c| >= 10000 && InsertRows(refs, t, rows).Some?
    ensures IsChain(InsertRows(refs, t, rows).value, c)
  {
    if rows != [] {
      RowsKeepLongChain(refs, t, rows[..|rows| - 1], c);
      RowKeepsLongChain(refs, InsertRows(refs, t, rows[..|rows| - 1]).value, rows[|rows| - 1], c);
    }
  }

  /** A chain of 10000 rows is final: it is the same chain, with the same head, after any further commands. */
  lemma {:induction false} LongChainIsFinal(cmds: seq<Command>, more: seq<Command>, c: seq<Id>)
    requires IsChain(TableAfter(cmds), c) && |c| >= 10000
    ensures IsChain(TableAfter(cmds + more), c)
  {
    if more == [] {
      assert cmds + more == cmds;
    } else {
      var front, cmd := more[..|more| - 1], more[|more| - 1];
      assert (cmds + more)[..|cmds + more| - 1] == cmds + front;
      LongChainIsFinal(cmds, front, c);
      if cmd.Insert? && StatementAccepted(cmd.refs, TableAfter(cmds + front), cmd.rows) {
        RowsKeepLongChain(cmd.refs, TableAfter(cmds + front), cmd.rows, c);
      }
    }
  }

  /** Rows `0 .. n-1`, newest first, each superseding the next. */
  function NewestFirst(n: nat, k: nat): (rows: seq<Attribution>)
    requires k <= n
    ensures |rows| == k
    ensures forall i :: 0 <= i < k ==> rows[i] == Attribution(i, 0, 0, None, if i + 1 < n then Some(i + 1) else None)
  {
    if k == 0 then []
    else NewestFirst(n, k - 1) + [Attribution(k - 1, 0, 0, None, if k < n then Some(k) else None)]
  }

  const OPEN_REFERENCES := References(map[0 := 0], map[])

  ghost predicate FirstRows(n: nat, k: nat, t: Table) {
    && (forall id: Id :: id in t <==> id < k)
    && (forall id :: id in t ==> t[id].supersedes == if id + 1 < n then Some(id + 1) else None)
  }

  lemma NextRowPasses(n: nat, k: nat, t: Table, row: Attribution)
    requires k < n && FirstRows(n, k, t)
    requires row == Attribution(k, 0, 0, None, if k + 1 < n then Some(k + 1) else None)
    ensures RowAccepted(OPEN_REFERENCES, t, row)
    ensures FirstRows(n, k + 1, t[k := row])
  {
    if k + 1 < n {
      assert Ancestry(t, k + 1, 1) == [k + 1];
      assert !SupersededBy(t, k + 1);
    }
  }

  lemma {:induction false} NewestFirstPasses(n: nat, k: nat)
    requires k <= n
    ensures InsertRows(OPEN_REFERENCES, map[], NewestFirst(n, k)).Some?
    ensures FirstRows(n, k, InsertRows(OPEN_REFERENCES, map[], NewestFirst(n, k)).value)
  {
    var rows := NewestFirst(n, k);
    if k > 0 {
      NewestFirstPasses(n, k - 1);
      assert rows[..k - 1] == NewestFirst(n, k - 1);
      var t := InsertRows(OPEN_REFERENCES, map[], rows[..k - 1]).value;
      NextRowPasses(n, k - 1, t, rows[k - 1]);
      assert InsertRows(OPEN_REFERENCES, map[], rows) == Some(t[k - 1 := rows[k - 1]]);
    }
  }

  lemma UpwardIsChain(n: nat, t: Table)
    requires n > 0 && FirstRows(n, n, t)
    ensures IsChain(t, Upward(n)) && ForeignKeysHold(t)
  {
    var c := Upward(n);
    forall i | 0 <= i < n - 1 ensures Points(t, c[i], c[i + 1]) {
      assert i in t;
    }
    assert !SupersededBy(t, 0);
    assert n - 1 in t;
  }

  /**
   The depth bound does not bound lineages: one statement that lists its rows
   newest first builds a lineage of any length, because each of its rows points at
   a row that is not there yet. From 10000 rows on it is final: no later command
   ever gives it another head.
   */
  lemma OneStatementBuildsAnyLength(n: nat)
    requires n > 0
    ensures var cmd := Insert(OPEN_REFERENCES, NewestFirst(n, n));
      && IsChain(TableAfter([cmd]), Upward(n))
      && (n >= 10000 ==> forall more :: IsChain(TableAfter([cmd] + more), Upward(n)))
  {
    var cmd := Insert(OPEN_REFERENCES, NewestFirst(n, n));
    NewestFirstPasses(n, n);
    UpwardIsChain(n, InsertRows(OPEN_REFERENCES, map[], NewestFirst(n, n)).value);
    forall more | n >= 10000 ensures IsChain(TableAfter([cmd] + more), Upward(n)) {
      LongChainIsFinal([cmd], more, Upward(n));
    }
  }

  function Upward(n: nat): (c: seq<Id>)
    ensures |c| == n && forall i :: 0 <= i < n ==> c[i] == i
  {
    if n == 0 then [] else Upward(n - 1) + [n - 1]
  }
}
