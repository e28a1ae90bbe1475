/**
 Durability in every run of any number of requests: a session's staged audit rows
 share the fate of its changes, and eager rows survive whatever happens.
 */
module AuditCoupling {
  import opened Basics
  import opened CanonicalJson
  import opened AuditStorage
  import opened AuditProtocol
  import opened AuditGuarantees
  import opened RequestContext

  // ---------- What is durable, and whose it is ----------

  function RowsBy(rows: seq<Row>, writer: Writer): seq<Row> {
    if rows == [] then []
    else
      var row := rows[|rows| - 1];
      RowsBy(rows[..|rows| - 1], writer) + if row.writer == writer then [row] else []
  }

  function ChangesBy(changes: seq<Change>, sid: nat): seq<Change> {
    if changes == [] then []
    else
      var c := changes[|changes| - 1];
      ChangesBy(changes[..|changes| - 1], sid) + if c.session == sid then [c] else []
  }

  lemma {:induction false} RowsByConcat(a: seq<Row>, b: seq<Row>, writer: Writer)
    ensures RowsBy(a + b, writer) == RowsBy(a, writer) + RowsBy(b, writer)
  {
    if b == [] {
      assert a + b == a;
    } else {
      RowsByConcat(a, b[..|b| - 1], writer);
      assert (a + b)[..|a + b| - 1] == a + b[..|b| - 1];
    }
  }

  lemma {:induction false} ChangesByConcat(a: seq<Change>, b: seq<Change>, sid: nat)
    ensures ChangesBy(a + b, sid) == ChangesBy(a, sid) + ChangesBy(b, sid)
  {
    if b == [] {
      assert a + b == a;
    } else {
      ChangesByConcat(a, b[..|b| - 1], sid);
      assert (a + b)[..|a + b| - 1] == a + b[..|b| - 1];
    }
  }

  lemma {:induction false} RowsByOne(rows: seq<Row>, mine: Writer, writer: Writer)
    requires forall i :: 0 <= i < |rows| ==> rows[i].writer == mine
    ensures RowsBy(rows, writer) == if writer == mine then rows else []
  {
    if rows != [] {
      RowsByOne(rows[..|rows| - 1], mine, writer);
    }
  }

  lemma {:induction false} ChangesByOne(changes: seq<Change>, mine: nat, sid: nat)
    requires forall i :: 0 <= i < |changes| ==> changes[i].session == mine
    ensures ChangesBy(changes, sid) == if sid == mine then changes else []
  {
    if changes != [] {
      ChangesByOne(changes[..|changes| - 1], mine, sid);
    }
  }

  /** A session's pending rows and changes are its own. */
  ghost predicate Own(s: Session, sid: nat) {
    && (forall i :: 0 <= i < |s.rows| ==> s.rows[i].writer == Request(sid))
    && (forall i :: 0 <= i < |s.changes| ==> s.changes[i].session == sid)
  }

  /** What of session `sid` is durable: rows and changes, in order. */
  ghost predicate Durable(w: World, sid: nat, rows: seq<Row>, changes: seq<Change>) {
    RowsBy(w.log, Request(sid)) == rows && ChangesBy(w.changes, sid) == changes
  }

  /**
   Coupling: of an open or unknown session nothing is durable; of a finished one,
   everything it staged and changed if it was kept, and nothing if it crashed.
   Eager rows are never lost. Every open session still runs under its own scope.
   */
  ghost predicate Coupled(w: World) {
    && (forall sid :: sid in w.open ==>
          Own(w.open[sid], sid) && sid !in w.closed && w.open[sid].scope == Some(ScopeFor(w.open[sid].ctx)))
    && (forall sid :: sid !in w.closed ==> Durable(w, sid, [], []))
    && (forall sid :: sid in w.closed ==>
          var c := w.closed[sid];
          if Keeps(c.outcome) then Durable(w, sid, c.session.rows, c.session.changes) else Durable(w, sid, [], []))
    && RowsBy(w.log, Eager) == w.eager
  }

  lemma AppendKeepsCoupled(w: World, row: Row, v: World)
    requires Coupled(w) && row.writer == Eager
    requires v == w.(log := w.log + [row], pending := v.pending, eager := w.eager + [row])
    ensures Coupled(v)
  {
    forall writer ensures RowsBy(v.log, writer) == RowsBy(w.log, writer) + if writer == Eager then [row] else [] {
      RowsByConcat(w.log, [row], writer);
      RowsByOne([row], Eager, writer);
    }
    forall sid: nat ensures RowsBy(v.log, Request(sid)) == RowsBy(w.log, Request(sid)) {}
  }

  /** Committing a session's own rows and changes adds them to that session's share and to no other. */
  lemma SharesAfterCommit(w: World, sid: nat, s: Session, t: nat)
    requires Own(s, sid)
    ensures RowsBy(w.log + s.rows, Request(t)) == RowsBy(w.log, Request(t)) + if t == sid then s.rows else []
    ensures RowsBy(w.log + s.rows, Eager) == RowsBy(w.log, Eager)
    ensures ChangesBy(w.changes + s.changes, t) == ChangesBy(w.changes, t) + if t == sid then s.changes else []
  {
    RowsByConcat(w.log, s.rows, Request(t));
    RowsByOne(s.rows, Request(sid), Request(t));
    RowsByConcat(w.log, s.rows, Eager);
    RowsByOne(s.rows, Request(sid), Eager);
    ChangesByConcat(w.changes, s.changes, t);
    ChangesByOne(s.changes, sid, t);
  }

  lemma DurableAfterCommit(w: World, v: World, sid: nat, s: Session, t: nat, rows: seq<Row>, changes: seq<Change>)
    requires Own(s, sid) && v.log == w.log + s.rows && v.changes == w.changes + s.changes
    requires Durable(w, t, rows, changes)
    ensures if t == sid then Durable(v, t, rows + s.rows, changes + s.changes) else Durable(v, t, rows, changes)
  {
    SharesAfterCommit(w, sid, s, t);
  }

  lemma CommitKeepsCoupled(w: World, v: World, sid: nat, s: Session, outcome: Outcome)
    requires Coupled(w) && sid in w.open && s == w.open[sid] && Keeps(outcome)
    requires v.log == w.log + s.rows && v.changes == w.changes + s.changes && v.eager == w.eager
    requires v.open == w.open - {sid} && v.closed == w.closed[sid := Closed(s, outcome)]
    ensures Coupled(v)
  {
    SharesAfterCommit(w, sid, s, sid);
    DurableAfterCommit(w, v, sid, s, sid, [], []);
    assert [] + s.rows == s.rows && [] + s.changes == s.changes;
    forall t: nat | t !in v.closed ensures Durable(v, t, [], []) {
      DurableAfterCommit(w, v, sid, s, t, [], []);
    }
    forall t: nat | t in w.closed
      ensures var c := w.closed[t];
        if Keeps(c.outcome) then Durable(v, t, c.session.rows, c.session.changes) else Durable(v, t, [], [])
    {
      var c := w.closed[t];
      if Keeps(c.outcome) {
        DurableAfterCommit(w, v, sid, s, t, c.session.rows, c.session.changes);
      } else {
        DurableAfterCommit(w, v, sid, s, t, [], []);
      }
    }
  }

  /** What the end of a session leaves behind. */
  lemma EndWorld(env: Env, w: World, sid: nat, outcome: Outcome)
    requires sid in w.open
    ensures var s := w.open[sid];
      After(env, w, End(sid, outcome)) ==
        World(if Keeps(outcome) then w.log + s.rows else w.log,
              if Keeps(outcome) then w.changes + s.changes else w.changes,
              w.open - {sid}, w.closed[sid := Closed(s, outcome)], w.pending, w.eager)
  {
  }

  lemma EndKeepsCoupled(env: Env, w: World, sid: nat, outcome: Outcome, v: World)
    requires Coupled(w) && sid in w.open && v == After(env, w, End(sid, outcome))
    ensures Coupled(v)
  {
    EndWorld(env, w, sid, outcome);
    if Keeps(outcome) {
      CommitKeepsCoupled(w, v, sid, w.open[sid], outcome);
    }
  }

  /** A step that never commits a request's session in the middle of the request. */
  predicate Unbound(ev: Event) {
    !ev.AppendHere?
  }

  lemma StageKeepsCoupled(w: World, sid: nat, row: Row)
    requires Coupled(w) && sid in w.open && row.writer == Request(sid)
    ensures Coupled(w.(open := w.open[sid := Flushed(w.open[sid], row)]))
  {
  }

  lemma StepKeepsCoupled(env: Env, w: World, ev: Event)
    requires Coupled(w) && Enabled(env, w, ev) && Unbound(ev)
    ensures Coupled(After(env, w, ev))
  {
    var v := After(env, w, ev);
    match ev
    case Stage(sid, call, otherId, stored) =>
      StageKeepsCoupled(w, sid, NewRow(env, Request(sid), call, w.open[sid].read.value, otherId, stored));
    case EagerAppend(task, call, otherId, stored) =>
      AppendKeepsCoupled(w, NewRow(env, Eager, call, w.pending[task], otherId, stored), v);
    case End(sid, outcome) => EndKeepsCoupled(env, w, sid, outcome, v);
    case _ =>
  }

  // ---------- Runs ----------

  lemma {:induction false} ExecConcat(env: Env, w: World, a: seq<Event>, b: seq<Event>)
    requires Exec(env, w, a).Some?
    ensures Exec(env, w, a + b) == Exec(env, Exec(env, w, a).value, b)
  {
    if b == [] {
      assert a + b == a;
    } else {
      ExecConcat(env, w, a, b[..|b| - 1]);
      assert (a + b)[..|a + b| - 1] == a + b[..|b| - 1];
    }
  }

  lemma ExecOne(env: Env, w: World, ev: Event)
    requires Enabled(env, w, ev)
    ensures Exec(env, w, [ev]) == Some(After(env, w, ev))
  {
    assert [ev][..0] == [];
  }

  ghost predicate AllUnbound(evs: seq<Event>) {
    forall i :: 0 <= i < |evs| ==> Unbound(evs[i])
  }

  /** `evs` leads from `w` to `v` without ever committing a request midway. */
  ghost predicate Leads(env: Env, w: World, evs: seq<Event>, v: World) {
    Exec(env, w, evs) == Some(v) && AllUnbound(evs)
  }

  lemma LeadsOn(env: Env, w: World, evs: seq<Event>, v: World, ev: Event)
    requires Leads(env, w, evs, v) && Enabled(env, v, ev) && Unbound(ev)
    ensures Leads(env, w, evs + [ev], After(env, v, ev))
  {
    ExecOne(env, v, ev);
    ExecConcat(env, w, evs, [ev]);
  }

  lemma LeadsOne(env: Env, w: World, ev: Event)
    requires Enabled(env, w, ev) && Unbound(ev)
    ensures Leads(env, w, [ev], After(env, w, ev))
  {
    ExecOne(env, w, ev);
  }

  lemma LeadsFurther(env: Env, w: World, a: seq<Event>, u: World, b: seq<Event>, v: World)
    requires Leads(env, w, a, u) && Leads(env, u, b, v)
    ensures Leads(env, w, a + b, v)
  {
    ExecConcat(env, w, a, b);
  }

  lemma {:induction false} LeadsKeepsCoupled(env: Env, w: World, evs: seq<Event>, v: World)
    requires Leads(env, w, evs, v) && Coupled(w)
    ensures Coupled(v)
  {
    if evs != [] {
      var before := Exec(env, w, evs[..|evs| - 1]).value;
      LeadsKeepsCoupled(env, w, evs[..|evs| - 1], before);
      StepKeepsCoupled(env, before, evs[|evs| - 1]);
    }
  }

  // ---------- What the steps of a run say about a session ----------

  /** The rows made by the session's staged audits, in order. */
  ghost function StagedBy(env: Env, w: World, evs: seq<Event>, sid: nat): seq<Row>
    requires Exec(env, w, evs).Some?
  {
    if evs == [] then []
    else
      var front, ev := evs[..|evs| - 1], evs[|evs| - 1];
      StagedBy(env, w, front, sid) + if ev.Stage? && ev.sid == sid then MadeBy(env, Exec(env, w, front).value, ev) else []
  }

  /** The changes it wrote. */
  function WrittenBy(evs: seq<Event>, sid: nat): seq<Change> {
    if evs == [] then []
    else
      var ev := evs[|evs| - 1];
      WrittenBy(evs[..|evs| - 1], sid) + if ev.Write? && ev.sid == sid then [Change(sid, ev.what)] else []
  }

  /** The rows made by eager audits, in order. */
  ghost function EagerBy(env: Env, w: World, evs: seq<Event>): seq<Row>
    requires Exec(env, w, evs).Some?
  {
    if evs == [] then []
    else
      var front, ev := evs[..|evs| - 1], evs[|evs| - 1];
      EagerBy(env, w, front) + if ev.EagerAppend? then MadeBy(env, Exec(env, w, front).value, ev) else []
  }

  /** For whom it began. */
  function ContextOf(evs: seq<Event>, sid: nat): Option<ExecutionContext> {
    if evs == [] then None
    else
      var ev := evs[|evs| - 1];
      if ev.Begin? && ev.sid == sid then Some(ev.ctx) else ContextOf(evs[..|evs| - 1], sid)
  }

  /** How it ended. */
  function EndingOf(evs: seq<Event>, sid: nat): Option<Outcome> {
    if evs == [] then None
    else
      var ev := evs[|evs| - 1];
      if ev.End? && ev.sid == sid then Some(ev.outcome) else EndingOf(evs[..|evs| - 1], sid)
  }

  predicate Fresh(w: World, sid: nat) {
    sid !in w.open && sid !in w.closed
  }

  /** The session holds what its steps have staged and written, and nothing else. */
  ghost predicate HoldsItsSteps(env: Env, w: World, evs: seq<Event>, v: World, sid: nat)
    requires Exec(env, w, evs).Some?
  {
    var rows, changes := StagedBy(env, w, evs, sid), WrittenBy(evs, sid);
    && !(sid in v.open && sid in v.closed)
    && (sid in v.open ==>
          v.open[sid].rows == rows && v.open[sid].changes == changes &&
          EndingOf(evs, sid).None? && ContextOf(evs, sid) == Some(v.open[sid].ctx))
    && (sid in v.closed ==>
          v.closed[sid].session.rows == rows && v.closed[sid].session.changes == changes &&
          EndingOf(evs, sid) == Some(v.closed[sid].outcome))
    && (Fresh(v, sid) ==> rows == [] && changes == [] && EndingOf(evs, sid).None?)
  }

  lemma StepHoldsItsSteps(env: Env, w: World, evs: seq<Event>, v: World, sid: nat)
    requires evs != [] && Leads(env, w, evs, v)
    requires var front := evs[..|evs| - 1];
      Exec(env, w, front).Some? && HoldsItsSteps(env, w, front, Exec(env, w, front).value, sid)
    ensures HoldsItsSteps(env, w, evs, v, sid)
  {
    var front, ev := evs[..|evs| - 1], evs[|evs| - 1];
    var before := Exec(env, w, front).value;
    assert v == After(env, before, ev) && Unbound(ev);
    if ev.End? {
      EndWorld(env, before, ev.sid, ev.outcome);
    }
  }

  lemma {:induction false} SessionsHoldTheirSteps(env: Env, w: World, evs: seq<Event>, v: World, sid: nat)
    requires Leads(env, w, evs, v) && Fresh(w, sid)
    ensures HoldsItsSteps(env, w, evs, v, sid)
  {
    if evs != [] {
      var front := evs[..|evs| - 1];
      SessionsHoldTheirSteps(env, w, front, Exec(env, w, front).value, sid);
      StepHoldsItsSteps(env, w, evs, v, sid);
    }
  }

  lemma {:induction false} EagerRowsAreKept(env: Env, w: World, evs: seq<Event>, v: World)
    requires Leads(env, w, evs, v)
    ensures v.eager == w.eager + EagerBy(env, w, evs)
  {
    if evs != [] {
      var front, ev := evs[..|evs| - 1], evs[|evs| - 1];
      var before := Exec(env, w, front).value;
      EagerRowsAreKept(env, w, front, before);
      assert v == After(env, before, ev) && Unbound(ev);
    }
  }

  // ---------- Main results ----------

  /**
   What a session leaves behind, read off its steps alone: after a return or an HTTP
   error exactly the rows it staged and the changes it wrote are durable; after
   anything else, or before its end, none of either.
   */
  ghost predicate SharedFate(env: Env, w: World, evs: seq<Event>, v: World, sid: nat)
    requires Exec(env, w, evs).Some?
  {
    match EndingOf(evs, sid)
    case Some(Returned) =>
      RowsBy(v.log, Request(sid)) == StagedBy(env, w, evs, sid) && ChangesBy(v.changes, sid) == WrittenBy(evs, sid)
    case Some(HttpError) =>
      RowsBy(v.log, Request(sid)) == StagedBy(env, w, evs, sid) && ChangesBy(v.changes, sid) == WrittenBy(evs, sid)
    case Some(Crashed) => RowsBy(v.log, Request(sid)) == [] && ChangesBy(v.changes, sid) == []
    case None => RowsBy(v.log, Request(sid)) == [] && ChangesBy(v.changes, sid) == []
  }

  lemma SessionSharesOneFate(env: Env, w: World, evs: seq<Event>, v: World, sid: nat)
    requires Coupled(w) && Leads(env, w, evs, v) && Fresh(w, sid)
    ensures SharedFate(env, w, evs, v, sid)
  {
    LeadsKeepsCoupled(env, w, evs, v);
    SessionsHoldTheirSteps(env, w, evs, v, sid);
    assert sid !in v.closed ==> Durable(v, sid, [], []);
  }

  /**
   Over every run in which audits go through the eager store or are staged, as
   `get_db_session` arranges: a session's staged rows and its changes are durable
   together or not at all, an HTTP error keeps both, exactly the rows of eager audits
   are durable besides, whatever became of the requests that made them, and every
   open session runs under the scope set when it began.
   */
  lemma RowsShareTheFateOfChanges(env: Env, evs: seq<Event>, w: World)
    requires Leads(env, EMPTY_WORLD, evs, w)
    ensures forall sid :: SharedFate(env, EMPTY_WORLD, evs, w, sid)
    ensures RowsBy(w.log, Eager) == EagerBy(env, EMPTY_WORLD, evs)
    ensures forall sid :: sid in w.open ==>
      ContextOf(evs, sid).Some? && w.open[sid].scope == Some(ScopeFor(ContextOf(evs, sid).value))
  {
    LeadsKeepsCoupled(env, EMPTY_WORLD, evs, w);
    EagerRowsAreKept(env, EMPTY_WORLD, evs, w);
    forall sid: nat ensures SharedFate(env, EMPTY_WORLD, evs, w, sid) {
      SessionSharesOneFate(env, EMPTY_WORLD, evs, w, sid);
    }
    forall sid | sid in w.open
      ensures ContextOf(evs, sid).Some? && w.open[sid].scope == Some(ScopeFor(ContextOf(evs, sid).value))
    {
      SessionsHoldTheirSteps(env, EMPTY_WORLD, evs, w, sid);
    }
  }

  /** A session that commits in the middle of its request: its share is durable, its scope is gone. */
  lemma MidwayCommit(env: Env, w: World, sid: nat, row: Row)
    requires Coupled(w) && sid in w.open && row.writer == Request(sid)
    ensures var v := Committed(w.(open := w.open[sid := Flushed(w.open[sid], row)]), sid);
      && v.open[sid].scope.None?
      && Durable(v, sid, w.open[sid].rows + [row], w.open[sid].changes)
      && v.open[sid].rows == [] && v.open[sid].changes == []
  {
    var s := Flushed(w.open[sid], row);
    var v := Committed(w.(open := w.open[sid := s]), sid);
    assert v.log == w.log + s.rows && v.changes == w.changes + s.changes;
    assert Durable(w, sid, [], []);
    SharesAfterCommit(w, sid, s, sid);
    assert RowsBy(v.log, Request(sid)) == s.rows && ChangesBy(v.changes, sid) == s.changes;
  }

  /**
   The condition is needed: appending through a request's own session, as an
   earlier version of the unit of work did, always clears the request's scope,
   and if the request then crashes its rows and changes are durable all the same.
   */
  lemma AppendHereBreaksCoupling(env: Env, w: World, sid: nat, call: AuditCall, otherId: nat, stored: PyDict)
    requires Coupled(w) && Enabled(env, w, AppendHere(sid, call, otherId, stored))
    ensures var v := After(env, w, AppendHere(sid, call, otherId, stored));
      && v.open[sid].scope.None?
      && Durable(After(env, v, End(sid, Crashed)), sid,
                 w.open[sid].rows + MadeBy(env, w, AppendHere(sid, call, otherId, stored)), w.open[sid].changes)
  {
    var row := NewRow(env, Request(sid), call, w.open[sid].read.value, otherId, stored);
    MidwayCommit(env, w, sid, row);
  }
}
