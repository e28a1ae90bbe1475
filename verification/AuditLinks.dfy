/**
 What every interleaving of writers keeps: hashes stay distinct, and every row's
 predecessor stands before it in the committed log or in its own session.
 */
module AuditLinks {
  import opened Basics
  import opened CanonicalJson
  import opened AuditChain
  import opened AuditStorage
  import opened AuditProtocol

  ghost predicate Known(rows: seq<Row>, h: PyStr) {
    h == GENESIS_HASH || HasRow(rows, h)
  }

  /** Distinct hashes, and every predecessor is genesis or an earlier row. */
  ghost predicate Tidy(rows: seq<Row>) {
    && (forall i :: 0 <= i < |rows| ==> rows[i].record.hash == rows[i].entry.hash)
    && (forall i, j :: 0 <= i < j < |rows| ==> rows[i].entry.hash != rows[j].entry.hash)
    && (forall i :: 0 <= i < |rows| ==> Known(rows[..i], rows[i].entry.prevHash))
  }

  ghost predicate Apart(a: seq<Row>, b: seq<Row>) {
    forall i, j :: 0 <= i < |a| && 0 <= j < |b| ==> a[i].entry.hash != b[j].entry.hash
  }

  ghost predicate Linked(w: World) {
    && Tidy(w.log)
    && (forall sid :: sid in w.open ==> Tidy(View(w, sid)))
    && (forall s, t :: s in w.open && t in w.open && s != t ==> Apart(w.open[s].rows, w.open[t].rows))
    && (forall sid :: sid in w.open && w.open[sid].read.Some? ==> Known(View(w, sid), w.open[sid].read.value))
    && (forall task :: task in w.pending ==> Known(w.log, w.pending[task]))
  }

  // ---------- Facts about rows ----------

  lemma KnownInLonger(a: seq<Row>, b: seq<Row>, h: PyStr)
    requires Known(a, h)
    ensures Known(a + b, h)
  {
    if h != GENESIS_HASH {
      var i :| 0 <= i < |a| && a[i].entry.hash == h;
      assert (a + b)[i].entry.hash == h;
    }
  }

  lemma KnownInWoven(a: seq<Row>, b: seq<Row>, c: seq<Row>, h: PyStr)
    requires Known(a + c, h)
    ensures Known(a + b + c, h)
  {
    if h != GENESIS_HASH {
      var i :| 0 <= i < |a + c| && (a + c)[i].entry.hash == h;
      assert (a + b + c)[if i < |a| then i else i + |b|] == (a + c)[i];
    }
  }

  lemma TidyAppend(rows: seq<Row>, row: Row)
    requires Tidy(rows)
    requires row.record.hash == row.entry.hash
    requires !HasRow(rows, row.entry.hash) && Known(rows, row.entry.prevHash)
    ensures Tidy(rows + [row])
  {
    var longer := rows + [row];
    forall i | 0 <= i < |longer| ensures Known(longer[..i], longer[i].entry.prevHash) {
      assert longer[..i] == rows[..i];
      assert rows[..|rows|] == rows;
    }
  }

  /** Two tidy continuations of one log that share no hash can be put one after the other. */
  lemma TidyWeave(a: seq<Row>, b: seq<Row>, c: seq<Row>)
    requires Tidy(a + b) && Tidy(a + c) && Apart(b, c)
    ensures Tidy(a + b + c)
  {
    var woven := a + b + c;
    WovenDistinct(a, b, c);
    forall i | 0 <= i < |woven| ensures Known(woven[..i], woven[i].entry.prevHash) {
      if i < |a + b| {
        assert woven[..i] == (a + b)[..i];
      } else {
        var k := i - |b|;
        assert woven[i] == (a + c)[k];
        assert (a + c)[..k] == a + c[..k - |a|];
        assert woven[..i] == a + b + c[..k - |a|];
        KnownInWoven(a, b, c[..k - |a|], woven[i].entry.prevHash);
      }
    }
  }

  lemma WovenDistinct(a: seq<Row>, b: seq<Row>, c: seq<Row>)
    requires Tidy(a + b) && Tidy(a + c) && Apart(b, c)
    ensures var woven := a + b + c;
      && (forall i :: 0 <= i < |woven| ==> woven[i].record.hash == woven[i].entry.hash)
      && (forall i, j :: 0 <= i < j < |woven| ==> woven[i].entry.hash != woven[j].entry.hash)
  {
    var woven := a + b + c;
    forall i | 0 <= i < |woven|
      ensures woven[i] == if i < |a + b| then (a + b)[i] else (a + c)[i - |b|]
    {
    }
    forall i, j | 0 <= i < j < |woven| ensures woven[i].entry.hash != woven[j].entry.hash {
      if i < |a| && j >= |a + b| {
        assert woven[i] == (a + c)[i];
      } else if i >= |a| && j >= |a + b| && i < |a + b| {
        assert woven[i] == b[i - |a|] && woven[j] == c[j - |a + b|];
      }
    }
  }

  lemma LastHashIsKnown(env: Env, rows: seq<Row>, h: PyStr)
    requires Tidy(rows) && IsLastHash(env, rows, h)
    ensures Known(rows, h)
  {
    if rows != [] {
      var i :| 0 <= i < |rows| && IsLatest(env, rows, i) && h == HashOrGenesis(rows[i]);
      assert h == GENESIS_HASH || rows[i].entry.hash == h;
    }
  }

  // ---------- Steps ----------

  /** A session that is new or has read nothing yet. */
  lemma OpenedIsLinked(w: World, sid: nat, s: Session)
    requires Linked(w) && sid !in w.open
    requires s.rows == [] && s.read.None?
    ensures Linked(w.(open := w.open[sid := s]))
  {
    var v := w.(open := w.open[sid := s]);
    assert View(v, sid) == w.log;
    assert forall t :: t in w.open ==> View(v, t) == View(w, t);
  }

  /** Replacing a session by one with the same rows and a known read. */
  lemma UpdatedIsLinked(w: World, sid: nat, s: Session)
    requires Linked(w) && sid in w.open
    requires s.rows == w.open[sid].rows
    requires s.read.Some? ==> Known(View(w, sid), s.read.value)
    ensures Linked(w.(open := w.open[sid := s]))
  {
    var v := w.(open := w.open[sid := s]);
    assert forall t :: t in w.open ==> View(v, t) == View(w, t);
  }

  lemma UnusedInView(w: World, sid: nat, h: PyStr)
    requires sid in w.open && Unused(w, h)
    ensures !HasRow(View(w, sid), h)
  {
    var view := View(w, sid);
    forall i | 0 <= i < |view| ensures view[i].entry.hash != h {
      assert view[i] == if i < |w.log| then w.log[i] else w.open[sid].rows[i - |w.log|];
    }
  }

  lemma ApartFlushed(mine: seq<Row>, row: Row, theirs: seq<Row>)
    requires Apart(mine, theirs) && !HasRow(theirs, row.entry.hash)
    ensures Apart(mine + [row], theirs) && Apart(theirs, mine + [row])
  {
  }

  /** Flushing an unused row whose predecessor was read in this session. */
  lemma FlushedIsLinked(w: World, sid: nat, row: Row)
    requires Linked(w) && sid in w.open
    requires row.record.hash == row.entry.hash
    requires Unused(w, row.entry.hash) && Known(View(w, sid), row.entry.prevHash)
    ensures Linked(w.(open := w.open[sid := Flushed(w.open[sid], row)]))
  {
    var v := w.(open := w.open[sid := Flushed(w.open[sid], row)]);
    assert View(v, sid) == View(w, sid) + [row];
    UnusedInView(w, sid, row.entry.hash);
    TidyAppend(View(w, sid), row);
    assert forall t :: t in w.open && t != sid ==> View(v, t) == View(w, t);
    forall t | t in w.open && t != sid
      ensures Apart(v.open[sid].rows, v.open[t].rows) && Apart(v.open[t].rows, v.open[sid].rows)
    {
      ApartFlushed(w.open[sid].rows, row, w.open[t].rows);
    }
  }

  /** The log grows by rows that no open session holds. */
  lemma GrownIsLinked(w: World, more: seq<Row>, v: World)
    requires Linked(w) && Tidy(w.log + more)
    requires v.log == w.log + more
    requires v.open.Keys <= w.open.Keys
    requires forall t :: t in v.open ==> v.open[t] == w.open[t] && Apart(more, w.open[t].rows)
    requires forall task :: task in v.pending ==> task in w.pending && v.pending[task] == w.pending[task]
    ensures Linked(v)
  {
    forall t | t in v.open
      ensures Tidy(View(v, t))
      ensures v.open[t].read.Some? ==> Known(View(v, t), v.open[t].read.value)
    {
      TidyWeave(w.log, more, w.open[t].rows);
      if v.open[t].read.Some? {
        KnownInWoven(w.log, more, w.open[t].rows, v.open[t].read.value);
      }
    }
    forall task | task in v.pending ensures Known(v.log, v.pending[task]) {
      KnownInLonger(w.log, more, v.pending[task]);
    }
  }

  lemma CommittedIsLinked(w: World, sid: nat)
    requires Linked(w) && sid in w.open && w.open[sid].read.None?
    ensures Linked(Committed(w, sid))
  {
    var others := w.(log := View(w, sid), open := w.open - {sid});
    GrownIsLinked(w, w.open[sid].rows, others);
    OpenedIsLinked(others, sid, w.open[sid].(rows := [], changes := [], scope := None));
    assert Committed(w, sid).open == others.open[sid := w.open[sid].(rows := [], changes := [], scope := None)];
  }

  lemma ClosedIsLinked(env: Env, w: World, sid: nat, outcome: Outcome)
    requires Linked(w) && sid in w.open
    ensures Linked(After(env, w, End(sid, outcome)))
  {
    var v := After(env, w, End(sid, outcome));
    if Keeps(outcome) {
      GrownIsLinked(w, w.open[sid].rows, v);
    } else {
      assert w.log + [] == w.log;
      GrownIsLinked(w, [], v);
    }
  }

  lemma AppendedIsLinked(w: World, row: Row, v: World)
    requires Linked(w)
    requires row.record.hash == row.entry.hash
    requires Unused(w, row.entry.hash) && Known(w.log, row.entry.prevHash)
    requires v.log == w.log + [row] && v.open == w.open
    requires forall task :: task in v.pending ==> task in w.pending && v.pending[task] == w.pending[task]
    ensures Linked(v)
  {
    TidyAppend(w.log, row);
    forall t | t in w.open ensures Apart([row], w.open[t].rows) {
      assert !HasRow(w.open[t].rows, row.entry.hash);
    }
    GrownIsLinked(w, [row], v);
  }

  /** Every step of every writer keeps the log linked. */
  lemma StepKeepsLinked(env: Env, w: World, ev: Event)
    requires Linked(w) && Enabled(env, w, ev)
    ensures Linked(After(env, w, ev))
  {
    match ev
    case Begin(sid, ctx) => OpenedIsLinked(w, sid, Session(ctx, Some(ScopeFor(ctx)), [], [], None));
    case Write(sid, what) => UpdatedIsLinked(w, sid, After(env, w, ev).open[sid]);
    case ReadLast(sid, h) =>
      LastHashIsKnown(env, View(w, sid), h);
      UpdatedIsLinked(w, sid, w.open[sid].(read := Some(h)));
    case Stage(sid, call, otherId, stored) =>
      FlushedIsLinked(w, sid, NewRow(env, Request(sid), call, w.open[sid].read.value, otherId, stored));
    case AppendHere(sid, call, otherId, stored) =>
      var row := NewRow(env, Request(sid), call, w.open[sid].read.value, otherId, stored);
      FlushedIsLinked(w, sid, row);
      CommittedIsLinked(w.(open := w.open[sid := Flushed(w.open[sid], row)]), sid);
    case EagerRead(task, h) => LastHashIsKnown(env, w.log, h);
    case EagerAppend(task, call, otherId, stored) =>
      AppendedIsLinked(w, NewRow(env, Eager, call, w.pending[task], otherId, stored), After(env, w, ev));
    case End(sid, outcome) => ClosedIsLinked(env, w, sid, outcome);
  }

  lemma {:induction false} RunKeepsLinked(env: Env, evs: seq<Event>)
    requires Exec(env, EMPTY_WORLD, evs).Some?
    ensures Linked(Exec(env, EMPTY_WORLD, evs).value)
  {
    if evs != [] {
      RunKeepsLinked(env, evs[..|evs| - 1]);
      StepKeepsLinked(env, Exec(env, EMPTY_WORLD, evs[..|evs| - 1]).value, evs[|evs| - 1]);
    }
  }
}
