/**
 The imperative side of the protocol: the audit store's methods and the request's
 unit of work (backend/app/kernel/audit_postgres.py, backend/app/kernel/uow.py).
 Every method is a sequence of the protocol's steps.
 */
module UnitOfWork {
  import opened Basics
  import opened CanonicalJson
  import opened AuditChain
  import opened AuditStorage
  import opened AuditProtocol
  import opened AuditGuarantees
  import opened AuditCoupling
  import AuditRecords
  import opened RequestContext

  /** What a handler does with its session. */
  datatype Action =
    | Query
    | Mutate(what: nat)
    | StagedAudit(call: AuditCall, otherId: nat, stored: PyDict)
    | EagerAudit(call: AuditCall, otherId: nat, stored: PyDict)

  /** An action, with what other sessions attempt before it and, if it is an audit, between its read and its write. */
  datatype HandlerStep = HandlerStep(before: seq<Event>, action: Action, within: seq<Event>)

  /** The database hands back the payload it was given, up to key order. */
  predicate Stores(action: Action) {
    match action
    case StagedAudit(call, _, stored) => SamePayload(call.payload, stored)
    case EagerAudit(call, _, stored) => SamePayload(call.payload, stored)
    case _ => true
  }

  /** The action is an audit whose row cannot be inserted: it was sealed after what had been read, and its hash is taken. */
  ghost predicate Refused(env: Env, w: World, sid: nat, action: Action) {
    match action
    case StagedAudit(call, _, _) =>
      sid in w.open && w.open[sid].read.Some? && !Unused(w, Seal(env, call, w.open[sid].read.value).hash)
    case EagerAudit(call, _, _) =>
      sid in w.pending && !Unused(w, Seal(env, call, w.pending[sid]).hash)
    case _ => false
  }

  function MutationOf(sid: nat, action: Action): seq<Change> {
    if action.Mutate? then [Change(sid, action.what)] else []
  }

  function Mutations(sid: nat, handler: seq<HandlerStep>): seq<Change> {
    if handler == [] then []
    else Mutations(sid, handler[..|handler| - 1]) + MutationOf(sid, handler[|handler| - 1].action)
  }

  /** The row that an audit makes when it has read `prev`. */
  function RowFor(env: Env, sid: nat, action: Action, prev: PyStr): Row
    requires action.StagedAudit? || action.EagerAudit?
  {
    NewRow(env, if action.StagedAudit? then Request(sid) else Eager, action.call, prev, action.otherId, action.stored)
  }

  /** The rows of a handler's staged audits, in order; action `i` has read `prevs[i]`. */
  function StagedRows(env: Env, sid: nat, handler: seq<HandlerStep>, prevs: seq<PyStr>): seq<Row>
    requires |handler| == |prevs|
  {
    if handler == [] then []
    else
      var n := |handler| - 1;
      StagedRows(env, sid, handler[..n], prevs[..n]) +
        if handler[n].action.StagedAudit? then [RowFor(env, sid, handler[n].action, prevs[n])] else []
  }

  /** The row of every eager audit of the handler is in the log. */
  ghost predicate EagerRowsIn(log: seq<Row>, env: Env, sid: nat, handler: seq<HandlerStep>, prevs: seq<PyStr>)
    requires |handler| == |prevs|
  {
    forall i :: 0 <= i < |handler| && handler[i].action.EagerAudit? ==> RowFor(env, sid, handler[i].action, prevs[i]) in log
  }

  lemma NewRowsCarry(env: Env, call: AuditCall, otherId: nat, stored: PyDict)
    requires SamePayload(call.payload, stored)
    ensures forall writer, prev ::
      var row := NewRow(env, writer, call, prev, otherId, stored); Carries(env, row, call, prev) && row.writer == writer
  {
    forall writer, prev
      ensures var row := NewRow(env, writer, call, prev, otherId, stored); Carries(env, row, call, prev) && row.writer == writer
    {
      AuditRecords.NewRowCarries(env, writer, call, prev, otherId, stored);
    }
  }

  function Queries(handler: seq<HandlerStep>): nat {
    if handler == [] then 0
    else Queries(handler[..|handler| - 1]) + if handler[|handler| - 1].action.Query? then 1 else 0
  }

  /** One scope for every query of the handler, and always that of its context. */
  ghost predicate Saw(ctx: ExecutionContext, handler: seq<HandlerStep>, seen: seq<Option<Scope>>) {
    |seen| == Queries(handler) && forall i :: 0 <= i < |seen| ==> seen[i] == Some(ScopeFor(ctx))
  }

  lemma SawMore(ctx: ExecutionContext, handler: seq<HandlerStep>, i: nat, seen: seq<Option<Scope>>, more: seq<Option<Scope>>)
    requires i < |handler| && Saw(ctx, handler[..i], seen)
    requires |more| == if handler[i].action.Query? then 1 else 0
    requires forall k :: 0 <= k < |more| ==> more[k] == Some(ScopeFor(ctx))
    ensures Saw(ctx, handler[..i + 1], seen + more)
  {
    assert handler[..i + 1][..i] == handler[..i];
  }

  /** The log holds a row by this writer that records the call. */
  ghost predicate Logged(env: Env, log: seq<Row>, writer: Writer, call: AuditCall) {
    exists row :: row in log && row.writer == writer && Carries(env, row, call, row.entry.prevHash)
  }

  /** What an action was for is durable. */
  ghost predicate Recorded(env: Env, log: seq<Row>, changes: seq<Change>, sid: nat, action: Action) {
    match action
    case Query => true
    case Mutate(what) => Change(sid, what) in changes
    case StagedAudit(call, _, _) => Logged(env, log, Request(sid), call)
    case EagerAudit(call, _, _) => Logged(env, log, Eager, call)
  }

  /** Every action of a handler shows in its mutations, its staged rows or the log. */
  lemma {:induction false} EveryActionShows(env: Env, sid: nat, handler: seq<HandlerStep>, prevs: seq<PyStr>, i: nat)
    requires i < |handler| == |prevs| && Stores(handler[i].action)
    ensures var action := handler[i].action;
      && (action.Mutate? ==> Change(sid, action.what) in Mutations(sid, handler))
      && (action.StagedAudit? ==> RowFor(env, sid, action, prevs[i]) in StagedRows(env, sid, handler, prevs))
  {
    if i < |handler| - 1 {
      EveryActionShows(env, sid, handler[..|handler| - 1], prevs[..|handler| - 1], i);
    }
  }

  lemma {:induction false} ByWriter(rows: seq<Row>, writer: Writer)
    ensures forall row :: row in RowsBy(rows, writer) <==> row in rows && row.writer == writer
  {
    if rows != [] {
      ByWriter(rows[..|rows| - 1], writer);
      assert rows == rows[..|rows| - 1] + [rows[|rows| - 1]];
    }
  }

  lemma {:induction false} BySession(changes: seq<Change>, sid: nat)
    ensures forall c :: c in ChangesBy(changes, sid) <==> c in changes && c.session == sid
  {
    if changes != [] {
      BySession(changes[..|changes| - 1], sid);
      assert changes == changes[..|changes| - 1] + [changes[|changes| - 1]];
    }
  }

  lemma EagerIsRecorded(env: Env, log: seq<Row>, changes: seq<Change>, sid: nat, handler: seq<HandlerStep>, prevs: seq<PyStr>, i: nat)
    requires i < |handler| == |prevs| && EagerRowsIn(log, env, sid, handler, prevs)
    requires handler[i].action.EagerAudit? && Stores(handler[i].action)
    ensures Recorded(env, log, changes, sid, handler[i].action)
  {
    var action := handler[i].action;
    NewRowsCarry(env, action.call, action.otherId, action.stored);
    assert RowFor(env, sid, action, prevs[i]) in log;
  }

  /** If the whole of a handler's share is durable, each of its actions is recorded. */
  lemma ActionIsRecorded(env: Env, w: World, sid: nat, handler: seq<HandlerStep>, prevs: seq<PyStr>, i: nat)
    requires i < |handler| == |prevs| && Stores(handler[i].action)
    requires Durable(w, sid, StagedRows(env, sid, handler, prevs), Mutations(sid, handler))
    requires EagerRowsIn(w.log, env, sid, handler, prevs)
    ensures Recorded(env, w.log, w.changes, sid, handler[i].action)
  {
    var action := handler[i].action;
    EveryActionShows(env, sid, handler, prevs, i);
    match action
    case Query =>
    case Mutate(what) => BySession(w.changes, sid);
    case StagedAudit(call, otherId, stored) =>
      ByWriter(w.log, Request(sid));
      NewRowsCarry(env, call, otherId, stored);
      assert RowFor(env, sid, action, prevs[i]) in w.log;
    case EagerAudit(_, _, _) => EagerIsRecorded(env, w.log, w.changes, sid, handler, prevs, i);
  }

  ghost predicate AllRecorded(env: Env, w: World, sid: nat, handler: seq<HandlerStep>) {
    forall i :: 0 <= i < |handler| ==> Recorded(env, w.log, w.changes, sid, handler[i].action)
  }

  ghost predicate EagerRecorded(env: Env, w: World, sid: nat, handler: seq<HandlerStep>) {
    forall i :: 0 <= i < |handler| && handler[i].action.EagerAudit? ==> Recorded(env, w.log, w.changes, sid, handler[i].action)
  }

  ghost predicate NothingLeft(w: World, sid: nat) {
    (forall row :: row in w.log ==> row.writer != Request(sid)) && (forall c :: c in w.changes ==> c.session != sid)
  }

  /**
   What a request leaves behind. After a return or an HTTP error: all its actions,
   and of its session exactly the handler's share, in order. After a crash: nothing
   of the session.
   */
  ghost predicate LeftBehind(env: Env, w: World, sid: nat, handler: seq<HandlerStep>, prevs: seq<PyStr>, outcome: Outcome) {
    match outcome
    case Returned =>
      |prevs| == |handler| && AllRecorded(env, w, sid, handler) &&
      Durable(w, sid, StagedRows(env, sid, handler, prevs), Mutations(sid, handler))
    case HttpError =>
      |prevs| == |handler| && AllRecorded(env, w, sid, handler) &&
      Durable(w, sid, StagedRows(env, sid, handler, prevs), Mutations(sid, handler))
    case Crashed => NothingLeft(w, sid)
  }

  lemma EndsLeavingBehind(env: Env, w: World, sid: nat, handler: seq<HandlerStep>, prevs: seq<PyStr>, outcome: Outcome)
    requires Coupled(w) && sid in w.closed && w.closed[sid].outcome == outcome
    requires forall i :: 0 <= i < |handler| ==> Stores(handler[i].action)
    requires outcome != Crashed ==>
      |prevs| == |handler| && Done(env, sid, w.log, w.closed[sid].session, handler, prevs)
    ensures LeftBehind(env, w, sid, handler, prevs, outcome)
  {
    if outcome == Crashed {
      assert Durable(w, sid, [], []);
      ByWriter(w.log, Request(sid));
      BySession(w.changes, sid);
    } else {
      forall i | 0 <= i < |handler| ensures Recorded(env, w.log, w.changes, sid, handler[i].action) {
        ActionIsRecorded(env, w, sid, handler, prevs, i);
      }
    }
  }

  lemma EagerIsAllRecorded(env: Env, w: World, sid: nat, handler: seq<HandlerStep>, prevs: seq<PyStr>)
    requires |prevs| == |handler| && EagerRowsIn(w.log, env, sid, handler, prevs)
    requires forall i :: 0 <= i < |handler| ==> Stores(handler[i].action)
    ensures EagerRecorded(env, w, sid, handler)
  {
    forall i | 0 <= i < |handler| && handler[i].action.EagerAudit?
      ensures Recorded(env, w.log, w.changes, sid, handler[i].action)
    {
      EagerIsRecorded(env, w.log, w.changes, sid, handler, prevs, i);
    }
  }

  /** A session holds exactly what these actions of a handler have written and staged, and their eager rows are in the log. */
  ghost predicate Done(env: Env, sid: nat, log: seq<Row>, s: Session, handler: seq<HandlerStep>, prevs: seq<PyStr>)
    requires |handler| == |prevs|
  {
    && s.changes == Mutations(sid, handler)
    && s.rows == StagedRows(env, sid, handler, prevs)
    && EagerRowsIn(log, env, sid, handler, prevs)
  }

  lemma StillDone(env: Env, sid: nat, log: seq<Row>, s: Session, handler: seq<HandlerStep>, prevs: seq<PyStr>, later: seq<Row>, t: Session)
    requires |handler| == |prevs| && Done(env, sid, log, s, handler, prevs)
    requires log <= later && t.rows == s.rows && t.changes == s.changes
    ensures Done(env, sid, later, t, handler, prevs)
  {
  }

  lemma OneMoreDone(env: Env, sid: nat, log: seq<Row>, s: Session, handler: seq<HandlerStep>, i: nat, prevs: seq<PyStr>, prev: PyStr, later: seq<Row>, t: Session)
    requires i == |prevs| < |handler| && Done(env, sid, log, s, handler[..i], prevs)
    requires var action := handler[i].action;
      && t.changes == s.changes + MutationOf(sid, action)
      && t.rows == s.rows + (if action.StagedAudit? then [RowFor(env, sid, action, prev)] else [])
      && log <= later && (action.EagerAudit? ==> RowFor(env, sid, action, prev) in later)
    ensures Done(env, sid, later, t, handler[..i + 1], prevs + [prev])
  {
    assert handler[..i + 1][..i] == handler[..i] && (prevs + [prev])[..i] == prevs;
    StillDone(env, sid, log, s, handler[..i], prevs, later, s);
  }

  /** The session, or the eager task, that takes a step. */
  function Actor(ev: Event): nat {
    match ev
    case EagerRead(task, _) => task
    case EagerAppend(task, _, _, _) => task
    case _ => ev.sid
  }

  /** What is `me`'s alone: its open session, its pending read and how it ended. */
  ghost predicate Kept(me: nat, w: World, v: World) {
    && (me in v.open <==> me in w.open) && (me in w.open ==> v.open[me] == w.open[me])
    && (me in v.pending <==> me in w.pending) && (me in w.pending ==> v.pending[me] == w.pending[me])
    && (me in v.closed <==> me in w.closed) && (me in w.closed ==> v.closed[me] == w.closed[me])
  }

  /** An attempt by someone else than `me` happens if it is possible; nobody commits a request in the middle. */
  function Attempt(env: Env, w: World, me: nat, ev: Event): World {
    if Actor(ev) != me && Unbound(ev) && Enabled(env, w, ev) then After(env, w, ev) else w
  }

  function AfterAttempts(env: Env, w: World, me: nat, attempts: seq<Event>): World {
    if attempts == [] then w
    else Attempt(env, AfterAttempts(env, w, me, attempts[..|attempts| - 1]), me, attempts[|attempts| - 1])
  }

  /** Whatever others can do they may have done: any run of theirs is a possible outcome of waiting. */
  lemma {:induction false} AnyRunMayHappen(env: Env, w: World, me: nat, evs: seq<Event>, v: World)
    requires Leads(env, w, evs, v) && forall i :: 0 <= i < |evs| ==> Actor(evs[i]) != me
    ensures AfterAttempts(env, w, me, evs) == v
  {
    if evs != [] {
      AnyRunMayHappen(env, w, me, evs[..|evs| - 1], Exec(env, w, evs[..|evs| - 1]).value);
    }
  }

  ghost function AfterRead(w: World, sid: nat, h: PyStr): World
    requires sid in w.open
  {
    w.(open := w.open[sid := w.open[sid].(read := Some(h))])
  }

  /** So is appending one in a fresh session. */
  lemma AppendLeads(env: Env, w: World, task: nat, h: PyStr, call: AuditCall, otherId: nat, stored: PyDict)
    requires task in w.pending && w.pending[task] == h && SamePayload(call.payload, stored)
    ensures var row := NewRow(env, Eager, call, h, otherId, stored);
      if Unused(w, row.entry.hash) then
        Leads(env, w, [EagerAppend(task, call, otherId, stored)],
              w.(log := w.log + [row], pending := w.pending - {task}, eager := w.eager + [row]))
      else !Enabled(env, w, EagerAppend(task, call, otherId, stored))
  {
    if Unused(w, Seal(env, call, h).hash) {
      LeadsOne(env, w, EagerAppend(task, call, otherId, stored));
    }
  }

  /** The database, the sessions that are open on it, and what is known of those that are not. */
  class Backend {
    const env: Env
    var log: seq<Row>
    var changes: seq<Change>
    var open: map<nat, Session>
    var closed: map<nat, Closed>
    var pending: map<nat, PyStr>
    var eager: seq<Row>

    function State(): World
      reads this
    {
      World(log, changes, open, closed, pending, eager)
    }

    constructor (env: Env)
      ensures this.env == env && State() == EMPTY_WORLD
    {
      this.env := env;
      log, changes, open, closed, pending, eager := [], [], map[], map[], map[], [];
    }

    /**
     While `me` awaits, other sessions and eager tasks take steps: each attempt
     happens if it is possible when its turn comes. They, too, never commit a
     request in the middle.
     */
    method Await(me: nat, attempts: seq<Event>) returns (ghost evs: seq<Event>)
      modifies this
      ensures Leads(env, old(State()), evs, State()) && Kept(me, old(State()), State()) && old(log) <= log
      ensures State() == AfterAttempts(env, old(State()), me, attempts)
    {
      evs := [];
      for i := 0 to |attempts|
        invariant Leads(env, old(State()), evs, State()) && Kept(me, old(State()), State()) && old(log) <= log
        invariant State() == AfterAttempts(env, old(State()), me, attempts[..i])
      {
        assert attempts[..i + 1][..i] == attempts[..i];
        var ev := attempts[i];
        if Actor(ev) != me && Unbound(ev) && Enabled(env, State(), ev) {
          LeadsOn(env, old(State()), evs, State(), ev);
          evs := evs + [ev];
          var after := After(env, State(), ev);
          log, changes, open := after.log, after.changes, after.open;
          closed, pending, eager := after.closed, after.pending, after.eager;
        }
      }
      assert attempts[..|attempts|] == attempts;
    }

    /** `last_hash`: ORDER BY created_at DESC LIMIT 1 over the rows a session sees. */
    method LastHash(rows: seq<Row>) returns (h: PyStr)
      ensures IsLastHash(env, rows, h)
    {
      if rows == [] {
        return GENESIS_HASH;
      }
      var latest := 0;
      for i := 1 to |rows|
        invariant 0 <= latest < i
        invariant forall j :: 0 <= j < i ==>
          env.instant(rows[j].record.createdAt) <= env.instant(rows[latest].record.createdAt)
      {
        if env.instant(rows[latest].record.createdAt) < env.instant(rows[i].record.createdAt) {
          latest := i;
        }
      }
      assert IsLatest(env, rows, latest);
      return HashOrGenesis(rows[latest]);
    }

    /** Add and flush: fails on a hash that is already taken. */
    method Flush(sid: nat, row: Row) returns (ok: bool)
      requires sid in open
      modifies this`open
      ensures ok <==> Unused(old(State()), row.entry.hash)
      ensures open == if ok then old(open)[sid := Flushed(old(open[sid]), row)] else old(open)
    {
      ok := Unused(State(), row.entry.hash);
      if ok {
        open := open[sid := Flushed(open[sid], row)];
      }
    }

    /**
     `audit_staged`: read the last hash in the caller's session, seal an entry after
     it and flush its row into that session, whatever others have done in between.
     Fails on a hash that is then taken. Commits nothing.
     */
    method AuditStaged(sid: nat, call: AuditCall, otherId: nat, stored: PyDict, within: seq<Event>)
      returns (ok: bool, ghost h: PyStr, ghost evs: seq<Event>, ghost mid: World)
      requires sid in open && SamePayload(call.payload, stored)
      modifies this
      ensures IsLastHash(env, old(View(State(), sid)), h)
      ensures Leads(env, AfterRead(old(State()), sid, h), evs, mid) && Kept(sid, AfterRead(old(State()), sid, h), mid)
      ensures old(log) <= mid.log && mid == AfterAttempts(env, AfterRead(old(State()), sid, h), sid, within)
      ensures var row := NewRow(env, Request(sid), call, h, otherId, stored);
        && (ok <==> Unused(mid, row.entry.hash))
        && State() == if ok then mid.(open := mid.open[sid := Flushed(mid.open[sid], row)]) else mid
      ensures ok ==>
        sid in open && open[sid].rows != [] &&
        var row := open[sid].rows[|open[sid].rows| - 1];
        Carries(env, row, call, h) && row.writer == Request(sid)
    {
      NewRowsCarry(env, call, otherId, stored);
      var prev := LastHash(View(State(), sid));
      h := prev;
      open := open[sid := open[sid].(read := Some(prev))];
      evs := Await(sid, within);
      mid := State();
      ok := Flush(sid, NewRow(env, Request(sid), call, prev, otherId, stored));
    }

    /** An append in a fresh session: durable at once, or refused for a hash that is taken. */
    method AppendAndCommit(task: nat, row: Row) returns (ok: bool)
      requires task in pending
      modifies this`log, this`pending, this`eager
      ensures ok <==> Unused(old(State()), row.entry.hash)
      ensures log == if ok then old(log) + [row] else old(log)
      ensures pending == if ok then old(pending) - {task} else old(pending)
      ensures eager == if ok then old(eager) + [row] else old(eager)
    {
      ok := Unused(State(), row.entry.hash);
      if ok {
        log := log + [row];
        pending := pending - {task};
        eager := eager + [row];
      }
    }

    /**
     `audit` through the eager store: one fresh session reads the committed log,
     another appends and commits, whatever others have done in between.
     */
    method Audit(task: nat, call: AuditCall, otherId: nat, stored: PyDict, within: seq<Event>)
      returns (ok: bool, ghost h: PyStr, ghost evs: seq<Event>, ghost mid: World)
      requires SamePayload(call.payload, stored)
      modifies this
      ensures IsLastHash(env, old(log), h)
      ensures var read := old(State()).(pending := old(pending)[task := h]);
        Leads(env, read, evs, mid) && Kept(task, read, mid) && old(log) <= mid.log && mid == AfterAttempts(env, read, task, within)
      ensures var row := NewRow(env, Eager, call, h, otherId, stored);
        && (ok <==> Unused(mid, row.entry.hash))
        && State() ==
           if ok then mid.(log := mid.log + [row], pending := mid.pending - {task}, eager := mid.eager + [row]) else mid
      ensures ok ==> log != [] && Carries(env, log[|log| - 1], call, h) && log[|log| - 1].writer == Eager
    {
      NewRowsCarry(env, call, otherId, stored);
      var prev := LastHash(log);
      h := prev;
      pending := pending[task := prev];
      evs := Await(task, within);
      mid := State();
      ok := AppendAndCommit(task, NewRow(env, Eager, call, prev, otherId, stored));
    }

    /** The end of `get_db_session`: commit after a return or an HTTP error, roll back after anything else. */
    method Finish(sid: nat, outcome: Outcome)
      requires sid in open
      modifies this`log, this`changes, this`open, this`closed
      ensures Leads(env, old(State()), [End(sid, outcome)], State())
      ensures open == old(open) - {sid} && closed == old(closed)[sid := Closed(old(open[sid]), outcome)]
      ensures match outcome
        case Returned => log == old(log) + old(open[sid].rows) && changes == old(changes) + old(open[sid].changes)
        case HttpError => log == old(log) + old(open[sid].rows) && changes == old(changes) + old(open[sid].changes)
        case Crashed => log == old(log) && changes == old(changes)
    {
      LeadsOne(env, State(), End(sid, outcome));
      EndWorld(env, State(), sid, outcome);
      var s := open[sid];
      closed := closed[sid := Closed(s, outcome)];
      if Keeps(outcome) {
        log := log + s.rows;
        changes := changes + s.changes;
      }
      open := open - {sid};
    }

    method OpenSession(sid: nat, ctx: ExecutionContext) returns (ghost evs: seq<Event>)
      requires sid !in open && sid !in closed
      modifies this`open
      ensures open == old(open)[sid := Session(ctx, Some(ScopeFor(ctx)), [], [], None)]
      ensures Leads(env, old(State()), evs, State())
    {
      LeadsOne(env, State(), Begin(sid, ctx));
      evs := [Begin(sid, ctx)];
      open := open[sid := Session(ctx, Some(ScopeFor(ctx)), [], [], None)];
    }

    method MutateStep(sid: nat, what: nat) returns (ghost evs: seq<Event>)
      requires sid in open
      modifies this`open
      ensures Leads(env, old(State()), evs, State())
      ensures open == old(open)[sid := old(open[sid]).(changes := old(open[sid].changes) + [Change(sid, what)])]
    {
      LeadsOne(env, State(), Write(sid, what));
      evs := [Write(sid, what)];
      open := open[sid := open[sid].(changes := open[sid].changes + [Change(sid, what)])];
    }

    method StagedStep(sid: nat, action: Action, within: seq<Event>)
      returns (ok: bool, ghost prev: PyStr, ghost evs: seq<Event>)
      requires sid in open && action.StagedAudit? && Stores(action)
      modifies this
      ensures Leads(env, old(State()), evs, State()) && old(log) <= log
      ensures IsLastHash(env, old(View(State(), sid)), prev)
      ensures sid in open && open[sid] == old(open[sid]).(rows := open[sid].rows, read := open[sid].read)
      ensures open[sid].rows == old(open[sid].rows) + if ok then [RowFor(env, sid, action, prev)] else []
      ensures sid in closed <==> sid in old(closed)
      ensures !ok ==> Refused(env, State(), sid, action)
    {
      ghost var w := State();
      ghost var between, mid;
      ok, prev, between, mid := AuditStaged(sid, action.call, action.otherId, action.stored, within);
      LeadsFurther(env, w, [ReadLast(sid, prev)], AfterRead(w, sid, prev), between, mid);
      evs := [ReadLast(sid, prev)] + between;
      if ok {
        LeadsFurther(env, w, evs, mid, [Stage(sid, action.call, action.otherId, action.stored)], State());
        evs := evs + [Stage(sid, action.call, action.otherId, action.stored)];
      }
    }

    method EagerStep(sid: nat, action: Action, within: seq<Event>)
      returns (ok: bool, ghost prev: PyStr, ghost evs: seq<Event>)
      requires sid in open && action.EagerAudit? && Stores(action)
      modifies this
      ensures Leads(env, old(State()), evs, State()) && old(log) <= log
      ensures IsLastHash(env, old(log), prev)
      ensures ok ==> RowFor(env, sid, action, prev) in log
      ensures sid in open && open[sid] == old(open[sid])
      ensures sid in closed <==> sid in old(closed)
      ensures !ok ==> Refused(env, State(), sid, action)
    {
      ghost var w := State();
      ghost var between, mid;
      ok, prev, between, mid := Audit(sid, action.call, action.otherId, action.stored, within);
      LeadsOne(env, w, EagerRead(sid, prev));
      LeadsFurther(env, w, [EagerRead(sid, prev)], w.(pending := w.pending[sid := prev]), between, mid);
      AppendLeads(env, mid, sid, prev, action.call, action.otherId, action.stored);
      evs := [EagerRead(sid, prev)] + between;
      if ok {
        LeadsFurther(env, w, evs, mid, [EagerAppend(sid, action.call, action.otherId, action.stored)], State());
        evs := evs + [EagerAppend(sid, action.call, action.otherId, action.stored)];
      }
    }

    /** One action of a handler; false means that it raised. An audit has read `prev`. */
    method RunAction(sid: nat, action: Action, within: seq<Event>)
      returns (ok: bool, ghost prev: PyStr, ghost evs: seq<Event>)
      requires sid in open && Stores(action)
      modifies this
      ensures Leads(env, old(State()), evs, State()) && old(log) <= log
      ensures sid in open && open[sid].ctx == old(open[sid].ctx) && open[sid].scope == old(open[sid].scope)
      ensures ok ==> open[sid].changes == old(open[sid].changes) + MutationOf(sid, action)
      ensures ok ==> open[sid].rows == old(open[sid].rows) + if action.StagedAudit? then [RowFor(env, sid, action, prev)] else []
      ensures ok && action.EagerAudit? ==> RowFor(env, sid, action, prev) in log
      ensures !ok ==> open[sid].changes == old(open[sid].changes) && open[sid].rows == old(open[sid].rows)
      ensures sid in closed <==> sid in old(closed)
      ensures !ok ==> Refused(env, State(), sid, action)
    {
      ok, prev, evs := true, GENESIS_HASH, [];
      match action
      case Query =>
      case Mutate(what) => evs := MutateStep(sid, what);
      case StagedAudit(_, _, _) => ok, prev, evs := StagedStep(sid, action, within);
      case EagerAudit(_, _, _) => ok, prev, evs := EagerStep(sid, action, within);
    }

    /** One step of a handler: what others do before it, and its action. */
    method RunStep(sid: nat, ctx: ExecutionContext, handler: seq<HandlerStep>, i: nat, ghost prevs: seq<PyStr>)
      returns (ok: bool, seen: seq<Option<Scope>>, ghost prev: PyStr, ghost evs: seq<Event>)
      requires sid in open && sid !in closed && open[sid].ctx == ctx && open[sid].scope == Some(ScopeFor(ctx))
      requires i == |prevs| < |handler| && Done(env, sid, log, open[sid], handler[..i], prevs) && Stores(handler[i].action)
      modifies this
      ensures Leads(env, old(State()), evs, State())
      ensures sid in open && sid !in closed && open[sid].ctx == ctx && open[sid].scope == Some(ScopeFor(ctx))
      ensures |seen| == if handler[i].action.Query? then 1 else 0
      ensures forall k :: 0 <= k < |seen| ==> seen[k] == Some(ScopeFor(ctx))
      ensures if ok then Done(env, sid, log, open[sid], handler[..i + 1], prevs + [prev])
              else Done(env, sid, log, open[sid], handler[..i], prevs)
      ensures !ok ==> Refused(env, State(), sid, handler[i].action)
    {
      ghost var w := State();
      ghost var others := Await(sid, handler[i].before);
      seen := if handler[i].action.Query? then [open[sid].scope] else [];
      ghost var v, more := State(), [];
      StillDone(env, sid, w.log, w.open[sid], handler[..i], prevs, v.log, v.open[sid]);
      ok, prev, more := RunAction(sid, handler[i].action, handler[i].within);
      LeadsFurther(env, w, others, v, more, State());
      evs := others + more;
      if ok {
        OneMoreDone(env, sid, v.log, v.open[sid], handler, i, prevs, prev, log, open[sid]);
      } else {
        StillDone(env, sid, v.log, v.open[sid], handler[..i], prevs, log, open[sid]);
      }
    }

    /**
     The handler's body, up to its end or to the first action that raises, with
     others at work around and inside every action; `done` actions went through.
     */
    method RunHandler(sid: nat, ctx: ExecutionContext, handler: seq<HandlerStep>)
      returns (done: nat, seen: seq<Option<Scope>>, ghost prevs: seq<PyStr>, ghost evs: seq<Event>)
      requires sid in open && sid !in closed && open[sid].ctx == ctx && open[sid].scope == Some(ScopeFor(ctx))
      requires open[sid].rows == [] && open[sid].changes == []
      requires forall i :: 0 <= i < |handler| ==> Stores(handler[i].action)
      modifies this
      ensures Leads(env, old(State()), evs, State())
      ensures sid in open && sid !in closed
      ensures done == |prevs| <= |handler| && Done(env, sid, log, open[sid], handler[..done], prevs)
      ensures Saw(ctx, handler[..done], seen)
      ensures done < |handler| ==> Refused(env, State(), sid, handler[done].action)
    {
      ghost var w := State();
      done, seen, prevs, evs := 0, [], [], [];
      while done < |handler|
        invariant Leads(env, w, evs, State())
        invariant sid in open && sid !in closed
        invariant done == |prevs| <= |handler| && Done(env, sid, log, open[sid], handler[..done], prevs)
        invariant open[sid].ctx == ctx && open[sid].scope == Some(ScopeFor(ctx))
        invariant Saw(ctx, handler[..done], seen)
      {
        ghost var u, prev, more := State(), GENESIS_HASH, [];
        var ok, saw;
        ok, saw, prev, more := RunStep(sid, ctx, handler, done, prevs);
        LeadsFurther(env, w, evs, u, more, State());
        evs := evs + more;
        if !ok {
          return;
        }
        SawMore(ctx, handler, done, seen, saw);
        seen := seen + saw;
        done, prevs := done + 1, prevs + [prev];
      }
    }

    /**
     One request from the opening of its session to its commit or rollback, among
     any number of others whose steps fall between its own. It is a run of the
     protocol, and every query of the handler sees the scope set at the start. After
     a return or an HTTP error every change, staged audit and eager audit of the
     handler is durable, the session's share in order and nothing else of it; after a
     crash, nothing of the session and the eager audits that went through. Only an
     audit row whose hash is taken can turn another ending into a crash.
     */
    method GetDbSession(sid: nat, ctx: ExecutionContext, handler: seq<HandlerStep>, ending: Outcome)
      returns (outcome: Outcome, done: nat, seen: seq<Option<Scope>>, ghost prevs: seq<PyStr>, ghost evs: seq<Event>)
      requires sid !in open && sid !in closed
      requires forall i :: 0 <= i < |handler| ==> Stores(handler[i].action)
      modifies this
      ensures Leads(env, old(State()), evs, State())
      ensures Coupled(old(State())) ==> Coupled(State())
      ensures sid !in open && sid in closed && closed[sid].outcome == outcome
      ensures done == |prevs| <= |handler|
      ensures outcome == if done == |handler| then ending else Crashed
      ensures done < |handler| ==>
        evs != [] && Exec(env, old(State()), evs[..|evs| - 1]).Some? &&
        Refused(env, Exec(env, old(State()), evs[..|evs| - 1]).value, sid, handler[done].action)
      ensures Saw(ctx, handler[..done], seen)
      ensures Coupled(old(State())) ==> LeftBehind(env, State(), sid, handler, prevs, outcome)
      ensures EagerRecorded(env, State(), sid, handler[..done])
    {
      ghost var w := State();
      evs := OpenSession(sid, ctx);
      ghost var u := State();
      ghost var more;
      done, seen, prevs, more := RunHandler(sid, ctx, handler);
      LeadsFurther(env, w, evs, u, more, State());
      evs := evs + more;
      outcome := if done == |handler| then ending else Crashed;
      ghost var upToEnd, before := evs, State();
      Finish(sid, outcome);
      LeadsFurther(env, w, upToEnd, before, [End(sid, outcome)], State());
      evs := upToEnd + [End(sid, outcome)];
      assert evs[..|evs| - 1] == upToEnd;
      assert handler[..|handler|] == handler;
      EagerIsAllRecorded(env, State(), sid, handler[..done], prevs);
      if Coupled(w) {
        LeadsKeepsCoupled(env, w, evs, State());
        StillDone(env, sid, before.log, before.open[sid], handler[..done], prevs, log, closed[sid].session);
        EndsLeavingBehind(env, State(), sid, handler, prevs, outcome);
      }
    }
  }
}
