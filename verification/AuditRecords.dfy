/**
 What the rows of the audit log say, in every run: each records, field by field, the
 call of some audit, after the hash which that audit had read; and audits made one
 after another, in the order of their timestamps, form a single chain.
 */
module AuditRecords {
  import opened Basics
  import opened CanonicalJson
  import opened AuditChain
  import opened AuditStorage
  import opened AuditProtocol
  import opened AuditGuarantees
  import opened RequestContext

  // ---------- One row ----------

  lemma NewRowCarries(env: Env, writer: Writer, call: AuditCall, prev: PyStr, otherId: nat, stored: PyDict)
    requires SamePayload(call.payload, stored)
    ensures Carries(env, NewRow(env, writer, call, prev, otherId, stored), call, prev)
    ensures NewRow(env, writer, call, prev, otherId, stored).writer == writer
  {
    if IsHex32(call.entryId) {
      HexRoundTrip(call.entryId);
    }
  }

  /** Who gets which scope: a tenant's own, unless the caller is anonymous, a super admin, or without a tenant. */
  lemma ScopeIsTheTenants(ctx: ExecutionContext)
    ensures ScopeFor(ctx) ==
      match ctx.tenantId
      case Some(t) => if ctx.principalId != "anonymous" && "super_admin" !in ctx.roles then Tenant(t) else SuperAdmin
      case None => SuperAdmin
  {
  }

  // ---------- Every row was called for ----------

  /** Step `i` is an audit's write; the row is its, and records its call after the hash its read returned. */
  ghost predicate CalledForBy(env: Env, evs: seq<Event>, i: nat, row: Row)
    requires i < |evs|
  {
    match evs[i]
    case Stage(sid, call, _, _) =>
      row.writer == Request(sid) && Carries(env, row, call, row.entry.prevHash) && ReadLast(sid, row.entry.prevHash) in evs[..i]
    case AppendHere(sid, call, _, _) =>
      row.writer == Request(sid) && Carries(env, row, call, row.entry.prevHash) && ReadLast(sid, row.entry.prevHash) in evs[..i]
    case EagerAppend(task, call, _, _) =>
      row.writer == Eager && Carries(env, row, call, row.entry.prevHash) && EagerRead(task, row.entry.prevHash) in evs[..i]
    case _ => false
  }

  ghost predicate CalledFor(env: Env, evs: seq<Event>, row: Row) {
    exists i :: 0 <= i < |evs| && CalledForBy(env, evs, i, row)
  }

  /** Every pending read is what some step of its reader returned. */
  ghost predicate ReadsHappened(evs: seq<Event>, w: World) {
    && (forall sid :: sid in w.open && w.open[sid].read.Some? ==> ReadLast(sid, w.open[sid].read.value) in evs)
    && (forall task :: task in w.pending ==> EagerRead(task, w.pending[task]) in evs)
  }

  lemma {:induction false} RunReadsHappened(env: Env, evs: seq<Event>, w: World)
    requires Reached(env, evs, w)
    ensures ReadsHappened(evs, w)
  {
    if evs != [] {
      var front, ev := evs[..|evs| - 1], evs[|evs| - 1];
      var before := Exec(env, EMPTY_WORLD, front).value;
      RunReadsHappened(env, front, before);
      assert evs == front + [ev];
      assert w == After(env, before, ev);
    }
  }

  lemma CalledForLater(env: Env, evs: seq<Event>, ev: Event, row: Row)
    requires CalledFor(env, evs, row)
    ensures CalledFor(env, evs + [ev], row)
  {
    var i :| 0 <= i < |evs| && CalledForBy(env, evs, i, row);
    assert (evs + [ev])[..i] == evs[..i];
    assert CalledForBy(env, evs + [ev], i, row);
  }

  lemma MadeIsCalledFor(env: Env, evs: seq<Event>, w: World, ev: Event, row: Row)
    requires ReadsHappened(evs, w) && Enabled(env, w, ev) && row in MadeBy(env, w, ev)
    ensures CalledFor(env, evs + [ev], row)
  {
    assert (evs + [ev])[..|evs|] == evs;
    match ev {
      case Stage(sid, call, otherId, stored) =>
        NewRowCarries(env, Request(sid), call, w.open[sid].read.value, otherId, stored);
      case AppendHere(sid, call, otherId, stored) =>
        NewRowCarries(env, Request(sid), call, w.open[sid].read.value, otherId, stored);
      case EagerAppend(task, call, otherId, stored) =>
        NewRowCarries(env, Eager, call, w.pending[task], otherId, stored);
      case _ =>
    }
    assert CalledForBy(env, evs + [ev], |evs|, row);
  }

  lemma StepIsCalledFor(env: Env, evs: seq<Event>, w: World, ev: Event, row: Row)
    requires Enabled(env, w, ev) && ReadsHappened(evs, w)
    requires forall r :: Holds(w, r) ==> CalledFor(env, evs, r)
    requires Holds(After(env, w, ev), row)
    ensures CalledFor(env, evs + [ev], row)
  {
    NoRowFromNowhere(env, w, ev, row);
    if Holds(w, row) {
      CalledForLater(env, evs, ev, row);
    } else {
      MadeIsCalledFor(env, evs, w, ev, row);
    }
  }

  lemma LastStep(env: Env, evs: seq<Event>, w: World)
    requires evs != [] && Reached(env, evs, w)
    ensures var front, ev := evs[..|evs| - 1], evs[|evs| - 1];
      && Exec(env, EMPTY_WORLD, front).Some? && evs == front + [ev]
      && var before := Exec(env, EMPTY_WORLD, front).value;
      && Reached(env, front, before) && Enabled(env, before, ev) && w == After(env, before, ev)
  {
  }

  /** In every run each row, committed or still pending, records the call of an audit of the run. */
  lemma {:induction false} EveryRowIsCalledFor(env: Env, evs: seq<Event>, w: World, row: Row)
    requires Reached(env, evs, w) && Holds(w, row)
    ensures CalledFor(env, evs, row)
  {
    if evs != [] {
      LastStep(env, evs, w);
      var front, ev := evs[..|evs| - 1], evs[|evs| - 1];
      var before := Exec(env, EMPTY_WORLD, front).value;
      forall r | Holds(before, r) ensures CalledFor(env, front, r) {
        EveryRowIsCalledFor(env, front, before, r);
      }
      RunReadsHappened(env, front, before);
      StepIsCalledFor(env, front, before, ev, row);
    }
  }

  // ---------- Audits in order form one chain ----------

  /** One eager audit whose read and write have nothing between them. */
  datatype EagerAudit = EagerAudit(task: nat, read: PyStr, call: AuditCall, otherId: nat, stored: PyDict)

  function StepsOf(audits: seq<EagerAudit>): seq<Event> {
    if audits == [] then []
    else
      var a := audits[|audits| - 1];
      StepsOf(audits[..|audits| - 1]) + [EagerRead(a.task, a.read), EagerAppend(a.task, a.call, a.otherId, a.stored)]
  }

  /** Later audits carry later timestamps. */
  ghost predicate InTimeOrder(env: Env, audits: seq<EagerAudit>) {
    forall i, j :: 0 <= i < j < |audits| ==> env.instant(audits[i].call.createdAt) < env.instant(audits[j].call.createdAt)
  }

  /** Each row's predecessor is the row right before it, the first one's genesis. */
  ghost predicate SingleChain(rows: seq<Row>) {
    && (rows != [] ==> rows[0].entry.prevHash == GENESIS_HASH)
    && (forall i, j :: 0 <= i && j == i + 1 < |rows| ==> rows[j].entry.prevHash == rows[i].entry.hash)
  }

  ghost predicate RowsOf(rows: seq<Row>, audits: seq<EagerAudit>) {
    |rows| == |audits| && forall i :: 0 <= i < |rows| ==>
      rows[i].record.createdAt == audits[i].call.createdAt && rows[i].record.hash == rows[i].entry.hash != []
  }

  /** The row with the latest timestamp is the one that is read. */
  lemma LatestIsRead(env: Env, rows: seq<Row>, audits: seq<EagerAudit>, h: PyStr)
    requires RowsOf(rows, audits) && InTimeOrder(env, audits) && IsLastHash(env, rows, h)
    ensures h == if rows == [] then GENESIS_HASH else rows[|rows| - 1].entry.hash
  {
    if rows != [] {
      var n := |rows| - 1;
      var i :| 0 <= i < |rows| && IsLatest(env, rows, i) && h == HashOrGenesis(rows[i]);
      assert env.instant(rows[n].record.createdAt) <= env.instant(rows[i].record.createdAt);
      assert i == n;
    }
  }

  lemma OneMoreAudit(env: Env, w: World, a: EagerAudit, v: World) returns (row: Row)
    requires Enabled(env, w, EagerRead(a.task, a.read))
    requires var u := After(env, w, EagerRead(a.task, a.read));
      Enabled(env, u, EagerAppend(a.task, a.call, a.otherId, a.stored)) &&
      v == After(env, u, EagerAppend(a.task, a.call, a.otherId, a.stored))
    ensures v.log == w.log + [row] && Carries(env, row, a.call, a.read) && IsLastHash(env, w.log, a.read)
  {
    row := NewRow(env, Eager, a.call, a.read, a.otherId, a.stored);
    NewRowCarries(env, Eager, a.call, a.read, a.otherId, a.stored);
  }

  lemma {:induction false} LastTwoSteps(env: Env, evs: seq<Event>, read: Event, write: Event, w: World)
    requires Reached(env, evs + [read, write], w)
    ensures Exec(env, EMPTY_WORLD, evs).Some?
    ensures var before := Exec(env, EMPTY_WORLD, evs).value;
      Enabled(env, before, read) && Enabled(env, After(env, before, read), write) &&
      w == After(env, After(env, before, read), write)
  {
    var all, front := evs + [read, write], evs + [read];
    assert all[..|all| - 1] == front && front[..|front| - 1] == evs;
    assert Exec(env, EMPTY_WORLD, front).Some?;
  }

  lemma ChainGrows(rows: seq<Row>, row: Row)
    requires SingleChain(rows)
    requires row.entry.prevHash == if rows == [] then GENESIS_HASH else rows[|rows| - 1].entry.hash
    ensures SingleChain(rows + [row])
  {
  }

  lemma OneMoreInOrder(env: Env, rows: seq<Row>, audits: seq<EagerAudit>, row: Row, a: EagerAudit)
    requires RowsOf(rows, audits) && SingleChain(rows) && InTimeOrder(env, audits)
    requires IsLastHash(env, rows, a.read) && Carries(env, row, a.call, a.read) && row.entry.hash != []
    ensures RowsOf(rows + [row], audits + [a]) && SingleChain(rows + [row])
  {
    LatestIsRead(env, rows, audits, a.read);
    ChainGrows(rows, row);
  }

  /**
   Audits made one after another with increasing timestamps form a single chain, in
   which each entry's predecessor is the entry right before it. (Audits that overlap
   or share a timestamp may branch.)
   */
  lemma {:induction false} AuditsInOrderFormOneChain(env: Env, audits: seq<EagerAudit>, w: World)
    requires Reached(env, StepsOf(audits), w) && InTimeOrder(env, audits)
    requires forall e :: env.rehash(e) != []
    ensures RowsOf(w.log, audits) && SingleChain(w.log)
  {
    if audits != [] {
      var front, a := audits[..|audits| - 1], audits[|audits| - 1];
      assert audits == front + [a];
      LastTwoSteps(env, StepsOf(front), EagerRead(a.task, a.read), EagerAppend(a.task, a.call, a.otherId, a.stored), w);
      var before := Exec(env, EMPTY_WORLD, StepsOf(front)).value;
      AuditsInOrderFormOneChain(env, front, before);
      var row := OneMoreAudit(env, before, a, w);
      OneMoreInOrder(env, before.log, front, row, a);
    }
  }
}
