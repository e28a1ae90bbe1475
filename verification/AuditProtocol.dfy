/**
 Concurrent writers of the audit log as a system of atomic steps
 (backend/app/kernel/audit_postgres.py, backend/app/kernel/uow.py).

 Requests run in database sessions of their own. A session sees the committed
 log and its own pending rows; its rows and changes become durable together when
 it commits, or vanish together when it rolls back. An eager audit runs in a
 fresh session and is durable at once. Between reading the last hash and writing
 the next entry, any other step of any other request may happen.
 */
module AuditProtocol {
  import opened Basics
  import opened CanonicalJson
  import opened AuditChain
  import opened AuditStorage
  import opened RequestContext

  // ---------- Data ----------

  /** What the protocol takes as given: the hash of an entry, and the order of timestamps. */
  datatype Env = Env(rehash: AuditEntry -> PyStr, instant: PyStr -> int)

  /** The arguments of one audit call, with the id and the time it was given. */
  datatype AuditCall = AuditCall(
    entryId: PyStr,
    action: PyStr,
    resourceType: PyStr,
    resourceId: Option<PyStr>,
    decision: Option<PyStr>,
    principalId: PyStr,
    payload: PyDict,
    createdAt: PyStr)

  datatype Writer = Eager | Request(session: nat)

  /** A row of the audit table, with the entry it was made from and who wrote it. */
  datatype Row = Row(writer: Writer, entry: AuditEntry, record: AuditRecord)

  /** A business change made by a handler, with the session that made it. */
  datatype Change = Change(session: nat, what: nat)

  datatype Scope = SuperAdmin | Tenant(id: string)

  /** `scope` is transaction-local: a commit clears it. */
  datatype Session = Session(
    ctx: ExecutionContext,
    scope: Option<Scope>,
    rows: seq<Row>,
    changes: seq<Change>,
    read: Option<PyStr>)

  datatype Outcome = Returned | HttpError | Crashed

  datatype Closed = Closed(session: Session, outcome: Outcome)

  /** `eager` lists every eager row ever appended; `closed` remembers how sessions ended. */
  datatype World = World(
    log: seq<Row>,
    changes: seq<Change>,
    open: map<nat, Session>,
    closed: map<nat, Closed>,
    pending: map<nat, PyStr>,
    eager: seq<Row>)

  const EMPTY_WORLD := World([], [], map[], map[], map[], [])

  /** The scope that `get_db_session` sets before any query runs. */
  function ScopeFor(ctx: ExecutionContext): Scope {
    if IsAnonymous(ctx) || ctx.tenantId.None? || IsSuperAdmin(ctx) then SuperAdmin
    else Tenant(ctx.tenantId.value)
  }

  /** `_build_entry`. */
  function Seal(env: Env, call: AuditCall, prev: PyStr): AuditEntry {
    var bare := AuditEntry(
      call.entryId, call.action, call.resourceType, call.resourceId, call.decision, call.principalId,
      call.payload, call.createdAt, prev, []);
    bare.(hash := env.rehash(bare))
  }

  function NewRow(env: Env, writer: Writer, call: AuditCall, prev: PyStr, otherId: nat, stored: PyDict): Row {
    var e := Seal(env, call, prev);
    Row(writer, e, ToRecord(e, otherId, stored))
  }

  /** Field by field and column by column: the row records this call, made after reading `prev`. */
  ghost predicate Carries(env: Env, row: Row, call: AuditCall, prev: PyStr) {
    var e, r := row.entry, row.record;
    && e.entryId == call.entryId && (IsHex32(call.entryId) ==> ToHex(r.id, 32) == call.entryId)
    && e.action == r.action == call.action
    && e.resourceType == r.resourceType == call.resourceType
    && e.resourceId == r.resourceId == call.resourceId
    && e.decision == r.decision == call.decision
    && e.principalId == r.principalId == call.principalId
    && e.payload == call.payload && SamePayload(call.payload, r.payload)
    && e.createdAt == r.createdAt == call.createdAt
    && e.prevHash == r.prevHash == prev
    && e.hash == r.hash == env.rehash(AuditEntry(
         call.entryId, call.action, call.resourceType, call.resourceId, call.decision, call.principalId,
         call.payload, call.createdAt, prev, []))
  }

  function View(w: World, sid: nat): seq<Row>
    requires sid in w.open
  {
    w.log + w.open[sid].rows
  }

  predicate HasRow(rows: seq<Row>, h: PyStr) {
    exists i :: 0 <= i < |rows| && rows[i].entry.hash == h
  }

  /** `last_hash`: the hash of a visible row with the greatest timestamp, or genesis if there is none. */
  predicate IsLastHash(env: Env, rows: seq<Row>, h: PyStr) {
    if rows == [] then h == GENESIS_HASH
    else exists i :: 0 <= i < |rows| && IsLatest(env, rows, i) && h == HashOrGenesis(rows[i])
  }

  /** Python's `row or GENESIS_HASH`: an empty string counts as no row. */
  function HashOrGenesis(row: Row): PyStr {
    if row.record.hash == [] then GENESIS_HASH else row.record.hash
  }

  predicate IsLatest(env: Env, rows: seq<Row>, i: int)
    requires 0 <= i < |rows|
  {
    forall j :: 0 <= j < |rows| ==> env.instant(rows[j].record.createdAt) <= env.instant(rows[i].record.createdAt)
  }

  // ---------- Steps ----------

  datatype Event =
    | Begin(sid: nat, ctx: ExecutionContext)
    | Write(sid: nat, what: nat)
    | ReadLast(sid: nat, h: PyStr)
    | Stage(sid: nat, call: AuditCall, otherId: nat, stored: PyDict)
    | AppendHere(sid: nat, call: AuditCall, otherId: nat, stored: PyDict)
    | EagerRead(task: nat, h: PyStr)
    | EagerAppend(task: nat, call: AuditCall, otherId: nat, stored: PyDict)
    | End(sid: nat, outcome: Outcome)

  /** The UNIQUE constraint on the hash, against committed rows and every session's pending ones. */
  predicate Unused(w: World, h: PyStr) {
    !HasRow(w.log, h) && forall sid :: sid in w.open ==> !HasRow(w.open[sid].rows, h)
  }

  predicate Insertable(env: Env, w: World, call: AuditCall, prev: PyStr, stored: PyDict) {
    SamePayload(call.payload, stored) && Unused(w, Seal(env, call, prev).hash)
  }

  predicate Enabled(env: Env, w: World, ev: Event) {
    match ev
    case Begin(sid, _) => sid !in w.open && sid !in w.closed
    case Write(sid, _) => sid in w.open
    case ReadLast(sid, h) => sid in w.open && IsLastHash(env, View(w, sid), h)
    case Stage(sid, call, _, stored) =>
      sid in w.open && w.open[sid].read.Some? && Insertable(env, w, call, w.open[sid].read.value, stored)
    case AppendHere(sid, call, _, stored) =>
      sid in w.open && w.open[sid].read.Some? && Insertable(env, w, call, w.open[sid].read.value, stored)
    case EagerRead(_, h) => IsLastHash(env, w.log, h)
    case EagerAppend(task, call, _, stored) => task in w.pending && Insertable(env, w, call, w.pending[task], stored)
    case End(sid, _) => sid in w.open
  }

  /** Flush a row into a session: visible to that session only. */
  function Flushed(s: Session, row: Row): Session {
    s.(rows := s.rows + [row], read := None)
  }

  /** Commit: the session's rows and changes are durable, its transaction and its scope are gone. */
  function Committed(w: World, sid: nat): World
    requires sid in w.open
  {
    var s := w.open[sid];
    w.(log := w.log + s.rows, changes := w.changes + s.changes,
       open := w.open[sid := s.(rows := [], changes := [], scope := None)])
  }

  predicate Keeps(outcome: Outcome) {
    outcome != Crashed
  }

  function After(env: Env, w: World, ev: Event): World
    requires Enabled(env, w, ev)
  {
    match ev
    case Begin(sid, ctx) => w.(open := w.open[sid := Session(ctx, Some(ScopeFor(ctx)), [], [], None)])
    case Write(sid, what) =>
      var s := w.open[sid];
      w.(open := w.open[sid := s.(changes := s.changes + [Change(sid, what)])])
    case ReadLast(sid, h) => w.(open := w.open[sid := w.open[sid].(read := Some(h))])
    case Stage(sid, call, otherId, stored) =>
      var s := w.open[sid];
      w.(open := w.open[sid := Flushed(s, NewRow(env, Request(sid), call, s.read.value, otherId, stored))])
    case AppendHere(sid, call, otherId, stored) =>
      var s := w.open[sid];
      Committed(w.(open := w.open[sid := Flushed(s, NewRow(env, Request(sid), call, s.read.value, otherId, stored))]), sid)
    case EagerRead(task, h) => w.(pending := w.pending[task := h])
    case EagerAppend(task, call, otherId, stored) =>
      var row := NewRow(env, Eager, call, w.pending[task], otherId, stored);
      w.(log := w.log + [row], pending := w.pending - {task}, eager := w.eager + [row])
    case End(sid, outcome) =>
      var s := w.open[sid];
      var kept := if Keeps(outcome) then Committed(w, sid) else w;
      kept.(open := kept.open - {sid}, closed := w.closed[sid := Closed(s, outcome)])
  }

  /** Execute a sequence of steps, if every one of them is possible when its turn comes. */
  ghost function Exec(env: Env, w: World, evs: seq<Event>): Option<World> {
    if evs == [] then Some(w)
    else
      var before := Exec(env, w, evs[..|evs| - 1]);
      var ev := evs[|evs| - 1];
      if before.Some? && Enabled(env, before.value, ev) then Some(After(env, before.value, ev)) else None
  }

  /** The steps lead from the empty table to `w`. */
  ghost predicate Reached(env: Env, evs: seq<Event>, w: World) {
    Exec(env, EMPTY_WORLD, evs) == Some(w)
  }
}
